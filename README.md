# Hindi/English corpus builder: the block scanners

This project models, in Dafny, the two scanners at the centre of the
Devanagari/English corpus builder. Each one turns the paragraphs of a
converted Word document into aligned translation units:

- the flat splitter (`buildPairs` followed by `mergeEnglishWithoutHindi`)
  pairs each Hindi block with the English block that follows it, using a
  one-pair accumulator;
- the sectioned parser (`parseSuttaSectionsWithMarker`) splits the document
  at `===SECTION===` marker lines. Each section gets a Hindi title, an
  English title and content pairs, found with a one-block lookahead;
- both pass their pairs through the same orphan merge. That pass appends
  every English-only entry to the English side of the entry before it.

The document is given as a sequence of `Block(text, html)` values: the
block's visible text and its markup. Script detection works on code points:
a text is Hindi when it holds a character of U+0900–U+097F and no ASCII
letter; every other text is English. Trimming removes the ECMAScript
whitespace set.

Modules:

- `Script`: character tests, blankness, `Trim`.
- `Corpus`: the shared datatypes, the block filter, the script label and the
  lookahead pairing rule.
- `OrphanMerge`: the merge pass, as a reference function `Merge` and as the
  source's loop `MergeOrphans`.
- `LanguageSplitter`: the accumulator scan, as `Feed`/`FeedAll`/`Close` and
  as the loop method `BuildPairs`.
- `SuttaSectionParser`: the classification, the state machine
  `Step`/`Run`, the loop method `ScanSections`, and an independent
  reference description of the sections, `Sections`. The loop is proved
  equal to it.

The loops are methods, each proved equal to a specification function, and
the properties are proved as lemmas about those functions. The merge pass
and the script test appear twice in the source, once per scanner, with
different key names (`hindi` and `devanagari`). Each is modelled once and
shared by both scanners.

## Model

| member | source | states |
|---|---|---|
| Script.HasDevanagari | src/DocxSuttaSectionParser.jsx:6 | definition: the text holds a code point of U+0900 to U+097F (isDevanagari; isHindi at src/DocxLanguageSplitter.jsx:5) |
| Script.HasAsciiLetter | src/DocxSuttaSectionParser.jsx:7 | definition: the text holds a letter A-Z or a-z (isEnglish in both files) |
| Script.IsWhitespace | src/DocxSuttaSectionParser.jsx:36 | definition: the ECMAScript WhiteSpace and LineTerminator code points that `trim` removes |
| Script.IsBlank | src/DocxSuttaSectionParser.jsx:13-14 | definition: every character is whitespace, that is `trim() === ""`, as TrimEmptyIffBlank proves |
| Script.Trim | src/DocxSuttaSectionParser.jsx:36 | trimming never lengthens the text, and the result neither starts nor ends with whitespace |
| Script.TrimEmptyIffBlank | src/DocxSuttaSectionParser.jsx:36-37 | trimming gives "" exactly when every character is whitespace, so the `!text` test drops exactly the blank blocks |
| Script.TrimKeepsScript | src/DocxSuttaSectionParser.jsx:36-48 | trimming changes neither "has a Devanagari code point" nor "has an ASCII letter", so testing the trimmed or the raw text gives the same answer |
| Script.TrimSpan | src/DocxLanguageSplitter.jsx:14 | the trimmed text is a contiguous slice of the text, and every character outside that slice is whitespace |
| Corpus.ScriptLabel | src/DocxLanguageSplitter.jsx:5-6 | Hindi if and only if the text has a Devanagari code point and no ASCII letter; English if and only if it does not |
| Corpus.MixedOrLetterlessIsEnglish | src/DocxLanguageSplitter.jsx:39-44 | a text with both scripts, or with neither, is labelled English |
| Corpus.ScriptLabelIgnoresTrim | src/DocxSuttaSectionParser.jsx:43-48 | the label of the trimmed text is the label of the raw text, so the two scanners agree on every non-marker block |
| Corpus.NonBlankBlocks | src/DocxLanguageSplitter.jsx:13-16 | the filter keeps exactly the blocks whose text is not blank, and never adds one |
| Corpus.NonBlankBlocksAppend | src/DocxLanguageSplitter.jsx:13-16 | the filter works block by block, so it keeps document order |
| Corpus.LabelBlocks | src/DocxLanguageSplitter.jsx:22-25 | every block is labelled, in place, with the label of its untrimmed text |
| Corpus.LookaheadPairs | src/DocxSuttaSectionParser.jsx:101-129 | the lookahead pairing never yields more pairs than blocks |
| Corpus.LookaheadPairsKeepsMarkup | src/DocxSuttaSectionParser.jsx:101-129 | read in order, both sides of the pairs are the blocks' markup in order: nothing is lost, duplicated or reordered |
| Corpus.LookaheadPairsWellFormed | src/DocxSuttaSectionParser.jsx:114-126 | when no markup is blank, every pair has a non-blank Devanagari side or is English-only with Devanagari side exactly "" |
| OrphanMerge.IsOrphan | src/DocxSuttaSectionParser.jsx:13-16 | definition: blank Devanagari side and non-blank English side, the `!hasDev && hasEng` test |
| OrphanMerge.AppendEnglish | src/DocxSuttaSectionParser.jsx:17-18 | only the last entry changes: its English side gets the orphan's English appended |
| OrphanMerge.Merge | src/DocxSuttaSectionParser.jsx:9-25 | the result is never longer than the input, and a non-empty input keeps its first Devanagari side |
| OrphanMerge.MergeOrphans | src/DocxSuttaSectionParser.jsx:9-25 | the loop that pushes copies or appends to the last entry computes `Merge` |
| OrphanMerge.MergeKeepsFirst | src/DocxLanguageSplitter.jsx:64-66 | the first entry is never dropped: its English side can only grow |
| OrphanMerge.MergeKeepsEnglish | src/DocxLanguageSplitter.jsx:56-74 | read in order, the English sides of the result are those of the input |
| OrphanMerge.MergeKeepsDevanagari | src/DocxLanguageSplitter.jsx:56-74 | the non-blank Devanagari sides keep their values and their order |
| OrphanMerge.MergeKeepsMarkup | src/DocxLanguageSplitter.jsx:56-74 | when English-only entries have Devanagari side "", the merge loses no markup |
| OrphanMerge.MergeLeavesNoOrphan | src/DocxLanguageSplitter.jsx:63-66 | when every entry has a non-blank side, no entry after the first has a blank Devanagari side |
| OrphanMerge.MergeFixpoint | src/DocxSuttaSectionParser.jsx:16-21 | a sequence with no English-only entry after the first comes back unchanged |
| OrphanMerge.MergeIdempotent | src/DocxSuttaSectionParser.jsx:9-25 | when every entry has a non-blank side, merging twice gives the same result as merging once |
| OrphanMerge.MergeNotIdempotentOnBlankEntry | src/DocxSuttaSectionParser.jsx:13-20 | an input with an entry blank on both sides gives a different result on a second merge |
| OrphanMerge.MergeFirstPass | src/DocxSuttaSectionParser.jsx:13-20 | the first pass over that input: the blank entry is copied and the orphan is folded into it |
| OrphanMerge.MergeSecondPass | src/DocxSuttaSectionParser.jsx:13-20 | the second pass folds the remaining orphan into the first entry |
| OrphanMerge.MergeTwo | src/DocxSuttaSectionParser.jsx:16-18 | an English-only entry after one other entry is appended to that entry's English side |
| OrphanMerge.MergeThree | src/DocxSuttaSectionParser.jsx:16-21 | when only the last of three entries is English-only, the first is copied and the last is appended to the second |
| LanguageSplitter.IsPending | src/DocxLanguageSplitter.jsx:27 | definition: the accumulator has a non-empty side, the truth test on `current.hindi` or `current.english` at lines 27 and 48 |
| LanguageSplitter.Feed | src/DocxLanguageSplitter.jsx:24-44 | one block pushes at most one pair, and afterwards the accumulator's English slot is empty |
| LanguageSplitter.Close | src/DocxLanguageSplitter.jsx:47-50 | the final flush adds one pair exactly when the accumulator is pending, and never more |
| LanguageSplitter.Pairing | src/DocxLanguageSplitter.jsx:18-52 | definition: the scan from an empty accumulator over the kept blocks, then the final flush |
| LanguageSplitter.PairingEmpty | src/DocxLanguageSplitter.jsx:18-52 | a document with no kept block gives no pairs |
| LanguageSplitter.BuildPairs | src/DocxLanguageSplitter.jsx:9-53 | the filter-and-accumulator loop computes `Pairing` of the kept blocks, and read in order its pairs are the kept blocks' markup |
| LanguageSplitter.ExtractPairs | src/DocxLanguageSplitter.jsx:90-91 | the merged pairs are `Merge` of the raw pairs; when no markup is blank, no markup is lost, no entry after the first is English-only, and a second merge changes nothing |
| LanguageSplitter.FeedAllKeepsMarkup | src/DocxLanguageSplitter.jsx:21-50 | throughout the scan, the pushed pairs, the accumulator and the blocks still to come add up to the same markup |
| LanguageSplitter.FeedKeepsMarkup | src/DocxLanguageSplitter.jsx:24-44 | one block adds exactly its markup to the pushed pairs and the Hindi slot |
| LanguageSplitter.PairingKeepsMarkup | src/DocxLanguageSplitter.jsx:21-50 | read in order, both sides of the pairs are the blocks' markup in order |
| LanguageSplitter.FeedAllExtends | src/DocxLanguageSplitter.jsx:21-50 | the scan only appends to the pairs already pushed |
| LanguageSplitter.FeedAllPushesNonEmpty | src/DocxLanguageSplitter.jsx:27-49 | with non-empty markup, every pushed pair has a non-empty side |
| LanguageSplitter.PairingNonEmpty | src/DocxLanguageSplitter.jsx:27-49 | with non-empty markup, no pair of the result is empty on both sides |
| LanguageSplitter.LeadingEnglishStandsAlone | src/DocxLanguageSplitter.jsx:18-37 | a document that starts with an English block starts with an English-only pair |
| LanguageSplitter.ConsecutiveHindiFlushes | src/DocxLanguageSplitter.jsx:25-31 | of two Hindi blocks in a row, the first is flushed alone with an empty English side |
| LanguageSplitter.FeedAllFromEmpty | src/DocxLanguageSplitter.jsx:21-50 | from an empty accumulator, the scan appends the lookahead pairs of the remaining blocks |
| LanguageSplitter.FeedAllFromHindi | src/DocxLanguageSplitter.jsx:25-38 | with a Hindi block in the accumulator, the scan pairs it with the next block if that one is English, and leaves it alone otherwise |
| LanguageSplitter.PairingIsLookahead | src/DocxLanguageSplitter.jsx:21-50 | when Hindi markup is non-empty, the accumulator scan is the parser's one-block lookahead rule |
| LanguageSplitter.PairingWellFormed | src/DocxLanguageSplitter.jsx:21-50 | when no markup is blank, English-only pairs have Devanagari side exactly "" and every pair has content |
| SuttaSectionParser.SectionLabel | src/DocxSuttaSectionParser.jsx:36-48 | a block is a marker if and only if its trimmed text is the marker string; otherwise it is Hindi if and only if it has Devanagari and no ASCII letter |
| SuttaSectionParser.Classify | src/DocxSuttaSectionParser.jsx:33-52 | every block keeps its position and markup and gets the label of its text |
| SuttaSectionParser.Step | src/DocxSuttaSectionParser.jsx:61-133 | each turn of the loop advances the index by one or two blocks and never past the end |
| SuttaSectionParser.Flushed | src/DocxSuttaSectionParser.jsx:135-140 | definition: the finished sections, then the open section, if any, with its content merged (also lines 66-72) |
| SuttaSectionParser.Run | src/DocxSuttaSectionParser.jsx:61-140 | definition: Step repeated from an index to the end of the blocks, then the final flush |
| SuttaSectionParser.ParseSuttaSectionsWithMarker | src/DocxSuttaSectionParser.jsx:27-142 | the parser returns the reference sections of the classified non-blank blocks, one per marker |
| SuttaSectionParser.ScanSections | src/DocxSuttaSectionParser.jsx:54-142 | the while loop with its two title flags computes the reference sections, as many as there are markers |
| SuttaSectionParser.StepMarker | src/DocxSuttaSectionParser.jsx:65-82 | a marker flushes the open section with its content merged, opens an empty one, and expects a Hindi title |
| SuttaSectionParser.StepHindiTitle | src/DocxSuttaSectionParser.jsx:85-91 | a Hindi block awaited as title becomes the Devanagari title, and an English title is expected next |
| SuttaSectionParser.StepEnglishTitle | src/DocxSuttaSectionParser.jsx:93-98 | an English block awaited as title becomes the English title |
| SuttaSectionParser.StepContent | src/DocxSuttaSectionParser.jsx:101-129 | in content state a Hindi block takes a directly following English block, otherwise it stands alone; a stray English block is pushed English-only |
| SuttaSectionParser.StepSkip | src/DocxSuttaSectionParser.jsx:132 | a block that fits no branch is skipped and the state is unchanged |
| SuttaSectionParser.NextMarker | src/DocxSuttaSectionParser.jsx:65 | the first marker at or after an index, or the end when there is none |
| SuttaSectionParser.TitledSection | src/DocxSuttaSectionParser.jsx:85-98 | a section read after its Hindi title keeps that title |
| SuttaSectionParser.HindiTitleIsFirstHi | src/DocxSuttaSectionParser.jsx:74-91 | the Hindi title is the first Hindi block after the marker, and the blocks before it are dropped; without one, the section is untitled and empty |
| SuttaSectionParser.EnglishTitleIsFirstEn | src/DocxSuttaSectionParser.jsx:74-98 | the English title is the first English block after the Hindi title, and the blocks before it are dropped; the blocks after it are paired and merged |
| SuttaSectionParser.NextMarkerStable | src/DocxSuttaSectionParser.jsx:65 | every index up to the next marker has the same next marker |
| SuttaSectionParser.SectionsFromMarker | src/DocxSuttaSectionParser.jsx:65-81 | each marker opens the section of the blocks up to the next marker |
| SuttaSectionParser.ScanContent | src/DocxSuttaSectionParser.jsx:101-130 | in content state, the loop appends the lookahead pairs of every block up to the next marker |
| SuttaSectionParser.AwaitHindiTitle | src/DocxSuttaSectionParser.jsx:85-91 | while a Hindi title is awaited, the loop produces the reference section, then the sections after it |
| SuttaSectionParser.AwaitEnglishTitle | src/DocxSuttaSectionParser.jsx:93-98 | while an English title is awaited, the loop produces the rest of the section, then the sections after it |
| SuttaSectionParser.AtBoundary | src/DocxSuttaSectionParser.jsx:66-140 | at a marker or at the end, the open section is pushed with its content merged |
| SuttaSectionParser.ScanIdle | src/DocxSuttaSectionParser.jsx:101-132 | with no section open, the loop skips every block up to the next marker |
| SuttaSectionParser.RunIsSections | src/DocxSuttaSectionParser.jsx:54-142 | the state machine, run from its initial state, computes the reference sections |
| SuttaSectionParser.SectionCount | src/DocxSuttaSectionParser.jsx:65-140 | there are exactly as many sections as marker blocks |
| SuttaSectionParser.NonMarkersSkipped | src/DocxSuttaSectionParser.jsx:132 | blocks ahead of any marker appear in no section |
| SuttaSectionParser.SectionContentKeepsMarkup | src/DocxSuttaSectionParser.jsx:101-140 | when no markup is blank, a section's merged content keeps the markup of the blocks after its English title, in order, and has no English-only entry after the first |

## Left out

- The `.docx` to HTML conversion (mammoth) and the DOM are not part of this
  model. The splitter takes the container's child nodes and the parser takes
  its `<p>` elements; both become the `raw` block sequence, holding each
  block's `innerText` and `outerHTML`.
- Text child nodes: they have no `innerText`, so the splitter's filter drops
  them. The model has only element blocks, so it does not represent them.
- The React components (state hooks, file input, preview, JSON view, error
  display, loading flag) are not modelled. Neither are the other readers in
  the repository (`DocxSplitCnEn`, `PalmLeafReader`, `DocxPreview`).
- Strings are sequences of code points. JavaScript strings are UTF-16 code
  units. The Devanagari range and every whitespace character lie in the
  Basic Multilingual Plane, so the tests agree.
- In-place updates are modelled as values. This covers `current.hindi = …`,
  `last.english += …`, `currentSection.content.push`, and the title fields.
  No alias is visible, so the value model is exact:
  - `buildPairs` pushes the accumulator object itself, without a copy. It
    then rebinds `current` to a fresh object, so the pushed pair is never
    written again.
  - The section parser pushes fresh object literals as content entries.
  - The two merge passes push copies (`{ ...pair }`). The only later write,
    to `last.english`, goes to such a copy, never to the input.

  `currentSection` (null or an object) is an `Option<Section>`.
- OrphanMerge.MergeIdempotent: requires every entry to have a non-blank side.
  The code is not idempotent on an entry that is blank on both sides (see
  MergeNotIdempotentOnBlankEntry); the model follows the code. Both
  scanners only produce entries with a non-blank side when block markup is
  not blank.
- OrphanMerge.MergeLeavesNoOrphan: requires every entry to have a non-blank
  side, for the same reason.
- OrphanMerge.MergeKeepsMarkup: requires English-only entries to have
  Devanagari side exactly "". A whitespace-only Devanagari side counts as
  blank and would be dropped when its entry is folded into the previous one.
- LanguageSplitter.PairingIsLookahead: requires non-empty Hindi markup,
  because `current.hindi || current.english` treats "" as false.
- LanguageSplitter.ConsecutiveHindiFlushes: requires non-empty Hindi markup,
  for the same reason.
- LanguageSplitter.PairingNonEmpty: requires non-empty markup. An
  `outerHTML` is never empty, but the model does not assume that.
- LanguageSplitter.ExtractPairs: states markup preservation and the absence
  of orphans only when no kept block's markup is blank.
- SuttaSectionParser.SectionContentKeepsMarkup: holds only under the same
  condition.
- SuttaSectionParser.SectionCount: counts sections and does not separately
  state that marker blocks contribute no markup. The reference description
  builds each section from the blocks strictly between two markers.
