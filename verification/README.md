# Text fragmentation: a Dafny model

This project models the core of a desktop tool that splits long texts into fragments of
about a target number of words. It has three parts.

- **The fragmentation service** (`python_service/fragmentation_service.py`). It splits a
  text into sentences with the pattern `(?<=[.!?])\s+`. In *size* mode it packs whole
  sentences greedily into fragments of at most `target + tolerance` words. Each fragment
  is tagged with whether its word count lies in `[target - tolerance, target + tolerance]`.
  In *row* mode it returns one fragment per non-blank line. Over a batch of texts it
  concatenates the fragments text by text. Its command line rejects any mode other than
  `size` and `row`.
- **The desktop backend's text list** (`app.go`). This is the list of loaded texts with:
  - pagination
  - lookup by index
  - selection by ID
  - deletion
  - replacing selected texts by their fragments
  - `FragmentTexts`, which calls the service once per selected text
  - `shortenFilename`, which shortens display names
- **The legacy desktop app** (`main.py`):
  - its word chunker, which cuts word lists into blocks of exactly `target` words and
    drops a short tail
  - its row-mode flatten over `splitlines()`
  - the word-frequency table and base dictionary built by `on_create_dictionary`

Python's string primitives are modelled exactly, as module `PyText`:
- `str.isspace` (also the `\s` class of a `str` regex)
- `str.split()`
- `str.strip()`
- `' '.join`
- `str.splitlines()` with its full set of line boundaries

Go strings are byte strings. The `FileNames` module models UTF-8 encoding explicitly, so
that the byte and rune operations of `shortenFilename` can be told apart.

Modules, one per component:
- `Results`: result and outcome types
- `Seqs`: flatten
- `PyText`
- `Decimal`: `%d` / `str(int)` formatting and its parse-back
- `Segmenter`: the sentence regex
- `Fragmentation`: the service
- `LegacyChunker` and `Dictionary`: `main.py`
- `TextStore` and `FileNames`: `app.go`

Where the written description of the service and its code disagree, the model follows the
code. The description says a whitespace-only text yields no fragments. The code yields
exactly one: an empty fragment with word count 0, stated by
`Fragmentation.WhitespaceOnlyText`. Only the empty string short-circuits at line 34.

## Model

| member | source | states |
|---|---|---|
| Segmenter.SplitReassembles | python_service/fragmentation_service.py:15 | The sentence pieces and the whitespace runs the pattern removes, concatenated in order, give back the text: splitting loses and invents nothing. |
| Segmenter.PiecesMatchFree | python_service/fragmentation_service.py:15 | No sentence contains a match of the pattern: no `.`/`!`/`?` followed by whitespace inside any piece. |
| Segmenter.PiecesWellFormed | python_service/fragmentation_service.py:15 | Every removed separator is a non-empty, maximal whitespace run directly after `.`, `!` or `?`; the punctuation stays on the sentence. |
| Segmenter.PiecesStep | python_service/fragmentation_service.py:15 | When the text has a boundary, the first sentence ends at the first terminal-then-space position and the next one starts after the whole whitespace run. |
| Segmenter.SplitStep | python_service/fragmentation_service.py:15 | The split list is the first sentence followed by the split of the text after the first separator. |
| Segmenter.SplitKeepsWords | python_service/fragmentation_service.py:15 | The sentences' word counts add up to the text's word count. |
| Segmenter.StrippedSentences | python_service/fragmentation_service.py:38 | Splitting a stripped, non-empty text yields only stripped, non-empty sentences. |
| Segmenter.StrippedTail | python_service/fragmentation_service.py:38 | Cutting a stripped text at a separator leaves stripped pieces on both sides. |
| Segmenter.TrimmedHasWords | python_service/fragmentation_service.py:38 | A non-empty stripped sentence has at least one word. |
| Segmenter.SplitOfOne | python_service/fragmentation_service.py:38 | A text the pattern splits into a single sentence is that sentence. |
| Segmenter.FirstSentenceStart | python_service/fragmentation_service.py:38 | Splitting a text that does not start with a space gives a first sentence that does not either. |
| Segmenter.NextBoundary | python_service/fragmentation_service.py:15 | The scan stops at the first position where a `.`/`!`/`?` is followed by whitespace, or at the end. |
| Segmenter.SpaceRunEnd | python_service/fragmentation_service.py:15 | The `\s+` match runs to the end of the whitespace run. |
| Segmenter.NoBoundaryBefore | python_service/fragmentation_service.py:15 | A prefix that ends before the first boundary contains no boundary. |
| PyText.Strip | python_service/fragmentation_service.py:38 | `strip()` returns the text between a whitespace-only prefix and a whitespace-only suffix, and the result neither starts nor ends with whitespace. |
| PyText.Words | python_service/fragmentation_service.py:47 | Every element of `split()` is a non-empty word without whitespace. |
| PyText.StripKeepsWords | python_service/fragmentation_service.py:38 | `strip()` keeps exactly the words of the text, in order. |
| PyText.StripEmptyIffAllSpace | python_service/fragmentation_service.py:82 | A line strips to the empty string iff it is all whitespace (the row-mode blank-line test). |
| PyText.WordsAcrossSpaces | python_service/fragmentation_service.py:47 | The words of `a + spaces + b` are the words of `a` followed by those of `b`. |
| PyText.WordsDropTrailingSpaces | python_service/fragmentation_service.py:47 | Trailing whitespace adds no words. |
| PyText.WordsSkipSpaces | python_service/fragmentation_service.py:47 | Leading whitespace adds no words. |
| PyText.WordsEmptyIffAllSpace | python_service/fragmentation_service.py:47 | `split()` is empty iff the text is all whitespace. |
| PyText.WordsOfWord | python_service/fragmentation_service.py:47 | A single word splits into itself. |
| PyText.FirstWordOfConcat | python_service/fragmentation_service.py:47 | When the first word of `a` ends inside `a` or at a space of `x`, it is the first word of `a + x`. |
| PyText.WordEndIs | python_service/fragmentation_service.py:47 | A word ends at the first whitespace character after its start. |
| PyText.WordsAroundGap | python_service/fragmentation_service.py:47 | Cutting out a whitespace gap splits the word count between the two sides. |
| PyText.WordsOfJoin | python_service/fragmentation_service.py:56 | The words of `' '.join(parts)` are the words of the parts, in order; so its word count is the sum of theirs. |
| PyText.SplitJoinedWords | main.py:780 | Joining words with a space and splitting again gives back the words. |
| PyText.SumWordCountsAppend | python_service/fragmentation_service.py:52 | Word counts of concatenated lists add up. |
| PyText.LengthOfFlatten | python_service/fragmentation_service.py:119 | The flattened list has as many elements as the lists hold together. |
| PyText.LinesRejoin | python_service/fragmentation_service.py:81 | The lines of `splitlines()`, each with the boundary removed after it, rejoin to the text. |
| PyText.LinesWellFormed | python_service/fragmentation_service.py:81 | No line holds a line boundary, and every removed ending is one boundary (`\r\n` counted as one). |
| PyText.LinesKeepWords | python_service/fragmentation_service.py:81 | The word counts of the lines add up to the text's word count. |
| PyText.SplitLinesStep | python_service/fragmentation_service.py:81 | The lines are the first line followed by the lines after its ending. |
| PyText.LineBreakIsSpace | python_service/fragmentation_service.py:81 | Every line boundary is whitespace. |
| Fragmentation.SplitBySize | python_service/fragmentation_service.py:22-68 | The empty string gives no fragments. A fragment is successful iff `target - tolerance <= count <= target + tolerance`. Each count is its text's word count, and the counts add up to the text's word count. |
| Fragmentation.SizeFragments | python_service/fragmentation_service.py:34-68 | The same, over the bounds `minWords`/`maxWords` that lines 43-44 compute. |
| Fragmentation.PackInvariant | python_service/fragmentation_service.py:46-62 | The loop, from any buffer within the limit whose count is its word count, emits groups that concatenate to buffer-then-input. Each group is good: its count is its words and it is within the limit unless it is one sentence. Adjacent groups are cut only where the next sentence would overflow. |
| Fragmentation.PackKeepsOrder | python_service/fragmentation_service.py:46-68 | The groups flatten to buffer-then-input, and the first group extends the buffer. |
| Fragmentation.PackIsGreedy | python_service/fragmentation_service.py:40-68 | Packing a sentence list satisfies the independent greedy-packing predicate, with every group's count its sentences' word count. |
| Fragmentation.GreedyPackingUnique | python_service/fragmentation_service.py:40-68 | Any grouping that satisfies the greedy-packing predicate is the one the loop produces. |
| Fragmentation.PackAfterGroup | python_service/fragmentation_service.py:53-62 | A group that fits and that the next sentence would overflow is emitted as it is, and packing restarts there. |
| Fragmentation.PackLoads | python_service/fragmentation_service.py:50-52 | Sentences that keep the buffer within the limit are all appended to it. |
| Fragmentation.PackLoadsGroup | python_service/fragmentation_service.py:50-52 | A fitting first group is loaded whole into the empty buffer. |
| Fragmentation.PackAppends | python_service/fragmentation_service.py:50-52 | A sentence that keeps the count within the limit is appended to the buffer. |
| Fragmentation.PackStarts | python_service/fragmentation_service.py:50-62 | The first sentence always starts the first buffer, whatever its size. |
| Fragmentation.PackOne | python_service/fragmentation_service.py:46-68 | A single sentence is packed as one group with its own word count. |
| Fragmentation.ConsGroup | python_service/fragmentation_service.py:53-62 | A good group followed by a good chain, cut where the limit forces it, is a good chain; the sentences stay in order. |
| Fragmentation.PackFacts | python_service/fragmentation_service.py:46-68 | The packing is greedy, each group counts its sentences' words, and the fragments' counts add up to the sentences' words. |
| Fragmentation.SizeGroupsFacts | python_service/fragmentation_service.py:38-68 | The same for the stripped and split text; the fragment counts add up to the text's word count. |
| Fragmentation.SizeModeIsGreedy | python_service/fragmentation_service.py:40-68 | Size-mode fragments are the greedy packing of the text's sentences. Each fragment's text is its sentences joined by a space, and its count is their word count. |
| Fragmentation.OverLimitFragmentIsOneSentence | python_service/fragmentation_service.py:60-62 | A fragment over `target + tolerance` holds exactly one sentence. |
| Fragmentation.WhitespaceOnlyText | python_service/fragmentation_service.py:34-38 | A non-empty whitespace-only text yields exactly one fragment: `("", min <= 0 <= max, 0)`. |
| Fragmentation.SingleSentenceText | python_service/fragmentation_service.py:38-68 | A text that is a single sentence yields one fragment: the stripped text with its word count. |
| Fragmentation.TextSentencesKeepWords | python_service/fragmentation_service.py:34-38 | The sentences the loop sees carry all of the text's words. |
| Fragmentation.GroupWordsAddUp | python_service/fragmentation_service.py:57-58 | Fragments whose counts are their sentences' words add up to all the sentences' words. |
| Fragmentation.TotalWordsAppend | python_service/fragmentation_service.py:119 | Word totals of concatenated fragment lists add up. |
| Fragmentation.SplitByRow | python_service/fragmentation_service.py:71-85 | Every row fragment is `(line.strip(), True, word count)` with a non-empty text, and the counts add up to the text's word count. |
| Fragmentation.RowFragmentOfLine | python_service/fragmentation_service.py:81-85 | One line yields nothing when blank, otherwise the single fragment `(strip(line), True, count)`. |
| Fragmentation.RowFragmentsAppend | python_service/fragmentation_service.py:81-85 | Row fragments of concatenated line lists concatenate, so they follow line order. |
| Fragmentation.RowFragmentsFacts | python_service/fragmentation_service.py:81-85 | Over lines without boundaries, every fragment is a row fragment, and the counts add up to the lines' word counts. |
| Fragmentation.FragmentsOfLineFacts | python_service/fragmentation_service.py:82-85 | The same for one line. |
| Fragmentation.LineFragment | python_service/fragmentation_service.py:83-85 | The fragment of a non-blank line is non-empty, successful, counts its line's words, and is stripped. |
| Fragmentation.RowFragmentsJoin | python_service/fragmentation_service.py:81-85 | Concatenating row-fragment lists keeps every element a row fragment. |
| Fragmentation.ProcessLargeTexts | python_service/fragmentation_service.py:88-121 | The batch's fragment counts add up to the texts' word counts. |
| Fragmentation.BatchKeepsWords | python_service/fragmentation_service.py:114-121 | Flattening the per-text results keeps every word. |
| Fragmentation.PerTextAppend | python_service/fragmentation_service.py:117 | Mapping over concatenated text lists concatenates the per-text results. |
| Fragmentation.BatchAppend | python_service/fragmentation_service.py:114-121 | The batch of `a + b` is the batch of `a` followed by the batch of `b`: input order is kept. |
| Fragmentation.BatchOfOne | python_service/fragmentation_service.py:108-112 | A batch of one text is that text's fragments; mode `row` picks the row splitter and every other mode picks size. |
| Fragmentation.BatchBlock | python_service/fragmentation_service.py:114-121 | In any batch, text `i`'s fragments sit between those of the texts before it and those after it. |
| Fragmentation.RunCli | python_service/fragmentation_service.py:141-147 | The command line fails iff the mode is neither `size` nor `row`, with `Unknown mode: <mode>`. Otherwise it returns the chosen splitter's fragments. |
| TextStore.NewApp | app.go:46-52 | A new app has no texts, is well formed, and its first page is empty. |
| TextStore.GetText | app.go:99-104 | Succeeds iff `0 <= index < len(texts)`, returning `texts[index]`; otherwise fails with `index out of range`. |
| TextStore.PageFacts | app.go:112-125 | On a well-formed app, the current page's slice is in bounds, has at most `itemsPerPage` items, and is empty iff there are no texts. |
| TextStore.PageSlice | app.go:112-125 | Page `p`, when it starts inside the list, is `texts[p*n .. min(p*n+n, len)]`. |
| TextStore.PageOfIndex | app.go:112-125 | Text `i` is item `i mod n` of page `i div n`. |
| TextStore.PagesCoverTexts | app.go:112-125 | The pages from `p` on, concatenated, are exactly the texts from `p*n` on. |
| TextStore.MulCancel | app.go:113 | A positive page size can be cancelled from a product comparison. |
| TextStore.TotalPagesIsCeiling | app.go:128-133 | The page count is at least 1, and for a non-empty list it is the least `p` with `len <= p*n`. |
| TextStore.SetCurrentPage | app.go:141-148 | Succeeds iff `0 <= page < GetTotalPages()`, and then sets the page. Otherwise it fails with `page out of range` and leaves the app unchanged. |
| TextStore.SetCurrentPageValid | app.go:141-148 | Setting the page keeps the app well formed; a page set successfully on a non-empty list is non-empty. |
| TextStore.Selected | app.go:192-196 | Every selected text has a selected ID. |
| TextStore.Kept | app.go:256-260 | No kept text has a selected ID. |
| TextStore.SelectedAppend | app.go:192-196 | Selection distributes over concatenation, so stored order is kept. |
| TextStore.KeptAppend | app.go:256-260 | Filtering distributes over concatenation, so stored order is kept. |
| TextStore.SelectedCount | app.go:192-196 | A text is selected as often as it is stored if its ID is selected, and never otherwise. |
| TextStore.KeptCount | app.go:256-260 | A text is kept as often as it is stored if its ID is not selected, and never otherwise. |
| TextStore.SelectionCounts | app.go:184-199 | Both counts at once. |
| TextStore.SelectionSplits | app.go:184-199 | Selected and kept texts together are the stored list, as a multiset. |
| TextStore.SelectionBySet | app.go:186-190 | Only the set of selected IDs matters, not their order or repetitions. |
| TextStore.GetSelectedTextsFacts | app.go:184-199 | Every stored text with a selected ID contributes its content, and every returned string is the content of such a text. |
| TextStore.GetSelectedTexts | app.go:184-199 | Never returns more strings than there are stored texts. |
| TextStore.Contents | app.go:194 | The contents list matches the texts one for one. |
| TextStore.DeleteFragments | app.go:279-295 | A text stays, as often as it is stored, exactly when its ID is not selected, so no remaining text has a selected ID. The page size is kept and the page resets to 0. |
| TextStore.AppendFragments | app.go:263-272 | The append loop adds exactly one record per fragment. |
| TextStore.AppendFragmentsShape | app.go:263-272 | The loop keeps the list it starts from as a prefix. Record `k` is built while the list holds `start + k` texts, because `len(newTexts)` is read again after each append. |
| TextStore.ReplaceFacts | app.go:247-276 | The result is the kept texts in order, then one record per fragment in order, with the fragment's text and count. Fragment `i` (0-based) gets ID and path `fragment_<kept+i>_<i+1>` and display name `Fragment <kept+2i+1>`. The page resets to 0. |
| TextStore.DisplayNumbersSkip | app.go:269 | With two fragments or more, the last new record's display number is `len + fragments - 1`, not its position `len`. |
| TextStore.MutationsKeepValid | app.go:247-295 | Deleting, replacing as written, and the corrected replacement all keep the app well formed. |
| TextStore.FragmentIdInjective | app.go:265 | For a fixed first number, `fragment_<b>_<j>` determines `j`. |
| TextStore.KeptUnique | app.go:256-260 | Filtering keeps IDs distinct. |
| TextStore.ConsUnique | app.go:256-260 | A text whose ID differs from every ID of a distinct list extends it distinctly. |
| TextStore.KeptCons | app.go:256-260 | Filtering a list with a head keeps the head iff its ID is unselected. |
| TextStore.ReplaceCollides | app.go:265-266 | If a kept text already has the ID `fragment_<kept>_1`, replacing with at least one fragment duplicates an ID. |
| TextStore.ScenarioFirstKept | app.go:256-260 | Selecting `c.txt` among `a.txt`, `b.txt`, `c.txt` keeps the first two. |
| TextStore.ScenarioFirstStep | app.go:247-276 | Replacing the third of three files by two fragments gives the first two files, then `fragment_2_1` ("Fragment 3") and `fragment_3_2` ("Fragment 5"). |
| TextStore.ScenarioSecondKept | app.go:256-260 | Selecting the first file and the second fragment of that list keeps the second file and the first fragment. |
| TextStore.ReplaceDuplicatesIds | app.go:265-266 | Start from three distinct files and replace `c.txt` by two fragments; the IDs are still distinct. Then replace `a.txt` and `fragment_3_2` by one fragment. The result is three texts, and the last two both have ID `fragment_2_1`. |
| TextStore.MaxIdLength | app.go:265 | Bounds the length of every stored ID. |
| TextStore.Pow10Digits | app.go:265 | `10^k` prints with `k + 1` digits. |
| TextStore.FreshBase | app.go:265 | No kept ID equals any `fragment_<b>_<j>` for the chosen `b`. |
| TextStore.FixedItemsUnique | app.go:263-272 | The records of one corrected replacement have distinct IDs. |
| TextStore.JoinUnique | app.go:256-272 | Two lists with distinct IDs and no ID in common join into a list with distinct IDs. |
| TextStore.ReplaceCorrectedUnique | app.go:247-276 | The corrected replacement keeps distinct IDs distinct. |
| TextStore.ReplaceCorrectedNames | app.go:269 | In the corrected replacement, the new record at 0-based position `k` is called `Fragment <k+1>`, so no two new records share a display name. |
| TextStore.ReplaceCorrectedAgrees | app.go:247-276 | The corrected replacement has the same length, page fields and kept prefix as the as-written one. Every record differs from the as-written one only in ID, path and display name. |
| TextStore.CallIsBatch | app.go:202-244 | For mode `size` or `row`, calling the service once per text and appending gives the service's batch result. Any other mode on a non-empty list fails with `python service error: exit status 1`. |
| TextStore.FragmentTextsFacts | app.go:159-181 | No selected text fails with `no texts selected`, leaving the app unchanged. A bad mode fails and leaves the app unchanged. Otherwise the fragments are the batch result over the selected contents, and the app is the as-written replacement. The app stays well formed. |
| TextStore.FragmentTextsFixedFacts | app.go:159-181 | With the corrected replacement the operation reports the same outcome, leaves the app unchanged on failure, and stores the same contents and counts in the same order. The app stays well formed, and distinct IDs stay distinct. |
| FileNames.ShortenRunesFacts | app.go:304-323 | Character-level shortening: unchanged iff within the limit. Otherwise it is exactly `maxLength` characters: the stem prefix + `...` + extension, or the first `maxLength-3` characters + `...`. It is idempotent, and it encodes to whole UTF-8 characters. |
| FileNames.ShortenFilenameAgrees | app.go:304-323 | The as-written byte result encodes the character result in every branch but the byte slice. There it is `maxLength` bytes, and it still agrees when the kept prefix is ASCII. |
| FileNames.ByteSliceBranch | app.go:313-314 | The byte-slice branch keeps `k` bytes plus three, which encode the first `k` characters when those are ASCII. |
| FileNames.ByteSliceSplitsRune | app.go:313-314 | For `report_2024ж.backup_copy` and limit 15, the as-written result is not valid UTF-8 (it ends a character early), while the character-level result is. |
| FileNames.ByteSliceCut | app.go:313-314 | The same for any 11 ASCII characters, a two-byte character and a 12-character extension. |
| FileNames.ExtShape | app.go:309-310 | The extension is empty or starts with `.`, contains no other `.` or `/`, and is a suffix; the stem is the rest. |
| FileNames.ExtScan | app.go:309 | The extension search finds the last `.` after the last `/`. |
| FileNames.ExtStartFinds | app.go:309 | Scanning from the end finds a given last `.`. |
| FileNames.Stem | app.go:310 | The stem followed by the extension is the name. |
| FileNames.Utf8 | app.go:317-319 | Encoding takes at least one byte per character. |
| FileNames.Utf8Append | app.go:305 | Encoding distributes over concatenation. |
| FileNames.Utf8Ascii | app.go:313-314 | ASCII text encodes one byte per character. |
| FileNames.Utf8WholeRunes | app.go:317-319 | Encoded text splits into whole characters. |
| FileNames.WholeRunesDrop | app.go:313-314 | Whole characters stay whole after an encoded prefix is removed. |
| FileNames.EncodeRune | app.go:317-319 | A character encodes as 1-4 bytes: a lead byte announcing the length, then continuation bytes. |
| Decimal.ParseNatToString | app.go:265 | Reading back the decimal form of `n` gives `n`. |
| Decimal.NatToStringInjective | app.go:265 | Distinct numbers print differently. |
| Decimal.NatToString | app.go:269 | The decimal form is non-empty digits with no leading zero. |
| LegacyChunker.WordChunksShape | main.py:773-783 | The chunks are the full blocks of `n = max(target, 1)` words, plus the tail iff it is non-empty with at least `tolerance` words. Every full block has exactly `n` words. Flattened, the chunks are the input, or the input minus the dropped tail. |
| LegacyChunker.DroppedTail | main.py:776-783 | The joined chunks are a prefix of the words. What is missing is shorter than both the block size and `tolerance`. |
| LegacyChunker.ChunksAreBlocks | main.py:776-783 | The loop produces exactly the fixed-size blocks followed by the kept tail. |
| LegacyChunker.BlocksPartition | main.py:777-781 | The blocks, then a remainder shorter than a block, partition the words. |
| LegacyChunker.ChunksFill | main.py:777-781 | A buffer that fills up is emitted and emptied. |
| LegacyChunker.ChunksDrain | main.py:782-783 | At the end, what is left in the buffer is emitted iff it is non-empty and has at least `tolerance` words. |
| LegacyChunker.JoinedChunkWords | main.py:780-783 | Splitting a joined chunk gives back its words. |
| LegacyChunker.ChunksAreWords | main.py:777-778 | Chunks hold only words of the input. |
| LegacyChunker.FlattenMember | main.py:803 | Every element of a part appears in the flattened list. |
| LegacyChunker.LegacyBatchAppend | main.py:785-803 | The batch of `a + b` is the batch of `a` followed by that of `b`. |
| LegacyChunker.LegacyRowSplitFacts | main.py:815 | The row flatten distributes over concatenation. All lines, blank ones included, carry all the words. |
| LegacyChunker.LegacyFragmentTexts | main.py:805-815 | Size split takes precedence: every fragment then has a full block of `target` words or is a kept tail of at least `tolerance` words. Otherwise row split keeps every word of the texts. With neither switch the result is empty. |
| LegacyChunker.TextChunkSizes | main.py:776-799 | Every string the chunker yields for one text has a full block of words or is the kept tail. |
| LegacyChunker.BatchChunkSizes | main.py:785-803 | The same holds for every fragment of the batch. |
| LegacyChunker.BlockSize | main.py:779 | A chunk closes at `max(target, 1)` words: exactly `target` when `target >= 1`. |
| Dictionary.ScanFacts | main.py:402-416 | The scan appends new cleaned words to the keys and the base list in first-occurrence order. It adds each cleaned word's occurrences to its count. It adds a word to the table iff it occurs. |
| Dictionary.FrequencyTable | main.py:399-413 | Over a fresh table: the keys are distinct and exactly the cleaned non-empty words, each counted by its occurrences. The empty word never appears. Keys follow first occurrence. |
| Dictionary.Cleaned | main.py:411-412 | Words that clean to empty are dropped. |
| Dictionary.BaseDictionary | main.py:414-416 | The base list keeps its prefix and gains only new cleaned words, in first-occurrence order. It gains every cleaned word and no duplicates. |
| Dictionary.AppendAllNewExtends | main.py:415-416 | Appending new words keeps the prefix and adds only absent words from the input. |
| Dictionary.AppendAllNewCovers | main.py:415-416 | Every input word ends up in the list. |
| Dictionary.AppendAllNewDistinct | main.py:415-416 | A distinct list stays distinct. |
| Dictionary.AppendAllNewOrder | main.py:415-416 | Added words follow their first occurrence in the input. |
| Dictionary.AppendAllNewFacts | main.py:415-416 | All four together. |
| Dictionary.FirstIndex | main.py:415-416 | The first position of a word in a list. |
| Dictionary.ScanKeysIgnoreBase | main.py:398-413 | The frequency table does not depend on the base list's initial contents. |
| Dictionary.DistinctCard | main.py:399-413 | A distinct key list has as many keys as the table. |
| Dictionary.InsertPermutes | main.py:423 | Insertion adds exactly the item. |
| Dictionary.InsertSorted | main.py:423 | Insertion keeps non-increasing frequency order. |
| Dictionary.InsertStable | main.py:423 | Insertion keeps the relative order of equal frequencies. |
| Dictionary.SortByFreqFacts | main.py:423 | The sort is a permutation, ordered by non-increasing frequency, and stable. |
| Dictionary.DictionaryRows | main.py:421-424 | The rows are `(word, str(freq), str(len(word)))` for the table's items, sorted by non-increasing frequency and stable. Every frequency is its word's number of occurrences. |
| Seqs.FlattenAppend | python_service/fragmentation_service.py:118-119 | Flattening concatenated lists concatenates. |

## Left out

- Thread pools: `ThreadPoolExecutor.map` preserves input order, so each batch is modelled
  as a sequential map followed by a flatten. The background thread and `Clock` hand-off in
  `main.py` are left out for the same reason.
- Command-line plumbing of the service, for these reasons:
  - argv parsing and `int()` conversion are plain input handling;
  - reading stdin, printing JSON and `sys.exit` are I/O;
  - the usage error at lines 126-128 is argument handling.

  Only the mode dispatch is modelled, as a result.
- Process execution in `callPythonFragmentation`:
  - `os.Executable`, the script lookup and `exec.Command` are I/O.
  - JSON decoding is modelled as lossless, since the service's own output always parses,
    so the `failed to parse fragments` error is not produced.
  - A failing service is reported as `exit status 1`, which is the status that script
    exits with.
- `LoadFiles`, `getDisplayName` and `OpenFileDialog`: file reads and `filepath.Base` are
  I/O, and the dialogs are UI. The Wails lifecycle hooks and the public
  `GetPaginatedData` wrapper add no logic.
- `GetCurrentPage` is a plain field read.
- `currentTextIndex` is never used by the modelled operations.
- Go `int` overflow: counts and indices are unbounded integers. Overflow would need more
  than 2^63 texts.
- Windows path separators: `filepath.Ext` is modelled with `/` as the only separator.
- `shortenFilename` with `maxLength < 3` on a long name is excluded by a precondition,
  because the Go slice panics there.
- The word cleaner `re.sub(r'[^\w\-]', '', word).lower()` is a function parameter.
  Unicode `\w` and case mapping are not re-specified.
- The dictionary models a `self.texts` entry as a plain string or as a tuple of at least
  two fields; narrower tuples would raise in Python.
- The dictionary's sort is modelled as a stable insertion sort. Python's `sorted` is
  stable, so the order is the same.
- Logging, the "large text" print in the legacy chunker, and all table and widget updates
  are left out as UI.
- Dafny characters are Unicode scalar values, so surrogates and invalid UTF-8 in file
  names are not modelled.
- Fragmentation.ProcessLargeTexts: its own contract states only that words are conserved.
  Input order and per-text content are stated by `BatchAppend`, `BatchOfOne` and
  `BatchBlock`.
- Fragmentation.SplitByRow: its own contract states the shape of each fragment and word
  conservation. One fragment per non-blank line, in line order, is stated by
  `RowFragmentOfLine` and `RowFragmentsAppend`.
- TextStore.GetSelectedTexts: its own contract states only the length bound. What it
  returns is stated by `GetSelectedTextsFacts`, `SelectedAppend` and `SelectionCounts`.

## Findings

| source | as written | input that shows it | evidently intended | confidence | as-written member | corrected member |
|---|---|---|---|---|---|---|
| app.go:313-314 | when the extension leaves no room for the stem, `filename[:maxLength-3]` slices bytes, which can cut a multi-byte character in half | `shortenFilename("report_2024ж.backup_copy", 15)`: the 12 kept bytes end with the first byte of `ж` | keep the first `maxLength-3` characters, as the stem branch does with `[]rune` | not executed | FileNames.ByteSliceSplitsRune | FileNames.ShortenRunesFacts |
| app.go:265-266 | new IDs are `fragment_<len(newTexts)>_<i+1>`, and `len(newTexts)` grows as fragments are appended, so a new ID can equal the ID of an earlier fragment still in the list | files `a.txt`, `b.txt`, `c.txt`; fragment `c.txt` into two, giving `fragment_2_1` and `fragment_3_2`; then fragment `a.txt` and `fragment_3_2` into one: `fragment_2_1` is kept and a second `fragment_2_1` is appended | IDs of new fragments never collide with stored IDs | not executed | TextStore.ReplaceDuplicatesIds | TextStore.ReplaceCorrectedUnique |
| app.go:269 | display name `Fragment <len(newTexts)+i+1>` counts `i` twice, because `len(newTexts)` already grew by `i`, so display numbers skip: 3, 5, 7, ... | files `a.txt`, `b.txt`, `c.txt`; fragment `c.txt` into two: the new texts are called "Fragment 3" and "Fragment 5" in a list of four | every new text is called `Fragment <its position>` | not executed | TextStore.DisplayNumbersSkip | TextStore.ReplaceCorrectedNames |

