# polyglot-learner core, modelled in Dafny

polyglot-learner is a browser vocabulary trainer. The vocabulary is a list
of multi-language rows: one id, a text per language tag, and study counters.
This project models the parts of it that compute or change state:

- the CSV import for the row format and the three item formats, from the
  CSV lexer's output to the import result;
- the CSV export, and its round trip through the legacy import;
- the words store: row and item actions, `persist` and `restore`, and its
  derived views;
- the study queue, an ordered list of ids, including its Fisher–Yates shuffle;
- the settings store: the TTS provider, the voice chosen per language tag,
  and the voice lookup;
- TTS voice selection and the engine factory;
- the text utilities (Levenshtein distance, similarity, language tags,
  display names) and the learning-priority order, review test and progress.

A JavaScript object is an insertion-ordered list of key/value pairs
(`OrderedMap`), so `Object.keys` order matters where the source relies on it.
Browser and library services become parameters:

- `parseInt` and `Date.parse` become functions `string -> Option<int>`, where
  `None` is `NaN`;
- `crypto.randomUUID` becomes `freshId`, one id per data row;
- `Math.random` becomes `draw`;
- `Date.now()` becomes `now`;
- the result of an IndexedDB read becomes a `Result`, and a failed write
  becomes its error message;
- the CSV lexer's output is the `Parsed` datatype.

Each state-changing part of the source is a class whose fields the methods
update: `Store` (the rows), `Queue` (the queued ids) and `Settings`. Every
method is tied to a specification function, and the laws are proved about
those functions.

Modules, one per file:

| module | file | models |
|---|---|---|
| `Wrappers`, `Seqs`, `Strings`, `OrderedMap`, `Types` | shared | the JavaScript primitives the source uses, and the data model |
| `Normalize` | normalize.dfy | `src/utils/normalize.ts` |
| `Learning` | learning.dfy | `src/utils/learning.ts` |
| `Csv` | csv.dfy | the row format of `src/utils/csv.ts` and the shared helpers |
| `CsvItems` | csv_items.dfy | the three item formats and the export of `src/utils/csv.ts` |
| `WordPairs` | pairs.dfy | the row-to-item expansion and the item-to-row grouping |
| `LanguagePairs` | language_pairs.dfy | `generateLanguagePairs` and `getAllLanguagePairs` |
| `WordsStore` | words_store.dfy | `src/stores/useWordsStore.ts` |
| `QueueStore` | queue_store.dfy | `src/stores/useQueueStore.ts` |
| `Tts` | tts.dfy | `src/utils/tts.ts` |
| `SettingsStore` | settings_store.dfy | `src/stores/useSettingsStore.ts` |

### Two behaviours of the queue worth knowing

- `add` does not drop duplicates inside one argument: it only skips ids that
  are already queued, so an id repeated inside one call is appended twice.
  `QueueStore.AddedNoDup` needs a duplicate-free argument for that reason.
- Queue entries are looked up among the composite item ids `row_src_tgt`:
  `getNextItem`, `getRandomItem` and `queueItems` search the items that
  `getAllItems` produces, so a queued row id finds nothing. The model keeps
  the lookup as written and takes the item list as a parameter.

## Model

| member | source | states |
|---|---|---|
| Csv.LexMessages | src/utils/csv.ts:49-51 | one `Row {row}: {message}` per lexer error, in order |
| Csv.Field | src/utils/csv.ts:120 | a cell is present exactly when the record has the header |
| Csv.Text | src/utils/csv.ts:120 | a missing cell reads as the empty text, a present one trimmed |
| Csv.Optional | src/utils/csv.ts:107 | `trim() \|\| undefined`: present exactly when the trimmed text is non-empty, and then that text |
| Csv.RowId | src/utils/csv.ts:97 | the trimmed `id` when non-empty, else the generated id |
| Csv.IntField | src/utils/csv.ts:100-104 | a missing or non-numeric cell reads 0, otherwise the parsed integer |
| Csv.DateErrors | src/utils/csv.ts:107-110 | at most one error, present exactly when a non-empty date does not parse, with the date in the message |
| Csv.WordColumns | src/utils/csv.ts:54 | exactly the headers starting with `word_` |
| Csv.LanguageOfColumn | src/utils/csv.ts:122 | on a word column `replace('word_', '')` strips the prefix, and the column is `word_` + language |
| Csv.ColumnOfLanguage | src/utils/csv.ts:122 | `word_` + language is a word column whose language is that language |
| Csv.WordsOfSpec | src/utils/csv.ts:116-128 | the `words` object lists each language once and holds exactly the languages whose column has non-empty trimmed text, mapped to that text |
| Csv.CollectWords | src/utils/csv.ts:116-128 | the column loop builds that object, and its flag is raised exactly when two or more languages have text |
| Csv.ValidateRowToWordRowSpec | src/utils/csv.ts:88-150 | a row is refused exactly for a bad date or fewer than two texts, with the messages joined in that order; an accepted row carries the record's id, counters, date, notes, stars, words and empty progress |
| Csv.Tally | src/utils/csv.ts:63-72 | every data row gives one value or one error |
| Csv.TallyAllOk | src/utils/csv.ts:63-72 | with no refusal there is no error and the values are the outcomes in order |
| Csv.Where | src/utils/csv.ts:63-72 | the positions of the accepted (or refused) outcomes, increasing, each of the right kind and all of them |
| Csv.OkValues | src/utils/csv.ts:66-68 | the values of the accepted outcomes, in row order |
| Csv.ErrMessages | src/utils/csv.ts:69-71 | `Row {i + 1}: {message}` for each refused row `i`, in row order |
| Csv.TallySpec | src/utils/csv.ts:63-72 | the tally is exactly the accepted values in row order and one message per refused row in row order |
| Csv.Outcomes | src/utils/csv.ts:63-65 | the validator applied to each data row with its index |
| Csv.TallyRows | src/utils/csv.ts:63-72 | the `forEach` loop pushes exactly the tallied values and errors |
| Csv.TallyRowGroups | src/utils/csv.ts:179-186 | the loop that pushes several items per row gives the tallied groups concatenated |
| Csv.ParseWordRows | src/utils/csv.ts:39-83 | the imperative `parseCsvToWordRows` equals its specification function |
| Csv.ParseCsvToWordRowsSpec | src/utils/csv.ts:39-83 | lexer errors come first; fewer than two `word_` headers gives no data and the column error; otherwise the data are the accepted rows in row order and the errors after the lexer's are one message per refused row in row order, and the counts in `meta` agree |
| Csv.ParseCsvToWordRows | src/utils/csv.ts:39-83 | the import as a function of the lexer's output; what it promises is the contract of `Csv.ParseCsvToWordRowsSpec` |
| Csv.ParseCsvToWordRowsWellFormed | src/utils/csv.ts:116-128 | every imported row lists each of its languages once |
| Csv.ParseCsvToWordRowsAllValid | src/utils/csv.ts:63-82 | when every record validates, the data are the validated rows in order, with only the lexer's errors |
| Csv.Languages | src/utils/csv.ts:15 | the language of each word column, in order |
| Csv.ExtractLanguagesSpec | src/utils/csv.ts:12-17 | a language is extracted exactly when `word_` + it is a header and it passes the tag test directly or with `-US` |
| Csv.MappedName | src/utils/csv.ts:29 | the display name is non-empty for a non-empty code |
| Csv.LanguageMappingSpec | src/utils/csv.ts:22-34 | exactly the word columns are mapped, each once, to the display name of its language |
| Csv.CreateLanguageMapping | src/utils/csv.ts:22-34 | the `forEach` builds that mapping |
| Csv.DetectCsvFormat | src/utils/csv.ts:651-689 | legacy exactly when `lang_src` and `lang_tgt` are headers; otherwise new exactly when two or more `word_` headers, with the extracted languages; otherwise unknown with none |
| CsvItems.JoinDateError | src/utils/csv.ts:222-232 | a lone date error is thrown as its own message |
| CsvItems.MissingHeadersSpec | src/utils/csv.ts:349 | the missing headers are exactly the expected ones that are absent |
| CsvItems.MissingHeadersErrors | src/utils/csv.ts:349-352 | at most one `Missing required headers` report |
| CsvItems.MissingHeadersErrorsSpec | src/utils/csv.ts:349-352 | no report exactly when all expected headers are present; otherwise the report joins the missing ones |
| CsvItems.When | src/utils/csv.ts:441-452 | a complaint is made exactly when its condition holds |
| CsvItems.RequiredOf | src/utils/csv.ts:441-444 | a `… is required` complaint for exactly the listed fields whose text is empty |
| CsvItems.AllLegacyFields | src/utils/csv.ts:436-439 | the four required legacy fields are all listed |
| CsvItems.RequiredProblems | src/utils/csv.ts:441-444 | no required-field complaint exactly when all four texts are non-empty |
| CsvItems.TagProblems | src/utils/csv.ts:447-452 | only a present tag that fails the tag grammar is reported |
| CsvItems.DateProblems | src/utils/csv.ts:462-465 | only a present date that does not parse is reported |
| CsvItems.LegacyProblems | src/utils/csv.ts:441-465 | no complaint exactly when the record is acceptable; each kind of complaint appears exactly for its cause |
| CsvItems.Messages | src/utils/csv.ts:441-465 | one message per complaint, in order |
| CsvItems.LegacyErrors | src/utils/csv.ts:432-472 | no error message exactly when the record is acceptable |
| CsvItems.ValidateRowSpec | src/utils/csv.ts:431-487 | a legacy record is refused exactly when not acceptable, with its errors joined by `; `; an accepted one has valid tags, the trimmed texts and the numeric defaults |
| CsvItems.ParseWords | src/utils/csv.ts:331-375 | the imperative `parseCsvToWords` equals its specification function |
| CsvItems.ParseCsvToWordsSpec | src/utils/csv.ts:331-375 | lexer errors first, then at most one header report (which does not stop the rows), then one message per refused row in row order; the data are the accepted items in row order |
| CsvItems.ColumnNotDate | src/utils/csv.ts:390-403 | a column message never equals a date message |
| CsvItems.ValidateRowWithConfigSpec | src/utils/csv.ts:380-426 | refused exactly when a configured column is empty or the date is bad, with the collected errors joined; an accepted item has the record's id, the configured pair and both texts non-empty |
| CsvItems.ConfigErrorsSpec | src/utils/csv.ts:390-403 | no error exactly when both columns have text and the date is readable; each column's `… is required` appears exactly when it is empty |
| CsvItems.ConfigHeaderErrors | src/utils/csv.ts:289-303 | at most three header reports |
| CsvItems.ConfigHeaderErrorsSpec | src/utils/csv.ts:289-303 | no header report exactly when both word columns and every standard header are present |
| CsvItems.ParseWordsWithConfig | src/utils/csv.ts:271-326 | the imperative `parseCsvToWordsWithConfig` equals its specification function |
| CsvItems.ParseCsvToWordsWithConfigSpec | src/utils/csv.ts:305-325 | the data are the accepted items in row order and the errors are the lexer's, the header reports and one message per refused row in row order; every item has the configured pair and non-empty texts |
| CsvItems.ConfigTally | src/utils/csv.ts:305-325 | the data and errors of a configured import in terms of the row outcomes, and their count |
| CsvItems.Assembled | src/utils/csv.ts:305-325 | messages put before a tally stay in front, and the tally splits into accepted values and refusal messages |
| CsvItems.ConfigValuesOfPair | src/utils/csv.ts:306-315 | every accepted item of a configured import has the configured pair and both texts |
| CsvItems.Texts | src/utils/csv.ts:244-245 | the trimmed text of each display language's column |
| CsvItems.TargetItemsCount | src/utils/csv.ts:236-262 | the inner loop yields one item per other target with text |
| CsvItems.SourceItemsCount | src/utils/csv.ts:235-263 | with k display languages having text the loops yield k(k-1) items |
| CsvItems.TargetItemsAre | src/utils/csv.ts:236-262 | each inner-loop item pairs the source with a different target, both with text |
| CsvItems.SourceItemsAre | src/utils/csv.ts:235-263 | each item pairs two different display positions with text |
| CsvItems.TargetItemsComplete | src/utils/csv.ts:236-262 | every other target with text is paired with the source |
| CsvItems.SourceItemsComplete | src/utils/csv.ts:235-263 | every ordered pair of different positions with text is produced |
| CsvItems.NoSelfPair | src/utils/csv.ts:237-249 | with duplicate-free display languages an item never pairs a language with itself, and carries the composite id |
| CsvItems.PairItemsSpec | src/utils/csv.ts:234-263 | exactly k(k-1) items, each a pair of different positions with text, every such pair present, composite ids |
| CsvItems.ExpandSource | src/utils/csv.ts:236-262 | the imperative inner loop equals its specification |
| CsvItems.ExpandRecord | src/utils/csv.ts:235-263 | the imperative double loop equals its specification |
| CsvItems.ValidateRowMultiLanguageSpec | src/utils/csv.ts:202-266 | only a bad date refuses a record, with that message alone; otherwise k(k-1) items built on the record's id |
| CsvItems.ConvertRowMultiLanguage | src/utils/csv.ts:202-266 | the imperative validation equals its specification |
| CsvItems.ParseWordsMultiLanguage | src/utils/csv.ts:155-197 | the imperative `parseCsvToWordsMultiLanguage` equals its specification function |
| CsvItems.RecordGroups | src/utils/csv.ts:179-186 | the items of each record with the id generated for that row |
| CsvItems.ParseCsvToWordsMultiLanguageSpec | src/utils/csv.ts:155-197 | fewer than two `word_` headers gives no data and the column error; otherwise the data are the accepted records' pairs, record after record, and the errors the lexer's then one message per refused record in row order; with no bad date, every record's pairs and no row error |
| CsvItems.MultiLanguageTally | src/utils/csv.ts:174-196 | with two or more word columns, the flattened accepted records and the refusal messages in row order |
| CsvItems.MultiLanguageAllAccepted | src/utils/csv.ts:174-196 | with no bad date every record is accepted and there is no row error |
| CsvItems.ConvertWordsToCsv | src/utils/csv.ts:492-506 | one record per item, each with exactly the twelve export columns |
| CsvItems.ExportHasLegacyHeaders | src/utils/csv.ts:345-352 | the exported columns include every header the legacy import expects |
| CsvItems.ExportHoldsTexts | src/utils/csv.ts:493-504 | an exported record holds the item's ids, tags, texts, date and notes |
| CsvItems.ExportHoldsCounters | src/utils/csv.ts:499-505 | an exported record holds the item's printed counters |
| CsvItems.ExportHoldsItem | src/utils/csv.ts:493-506 | an exported record holds its item |
| CsvItems.HeldTexts | src/utils/csv.ts:435-439 | the text cells of a holding record read back as the item's fields |
| CsvItems.HeldOptionals | src/utils/csv.ts:462-468 | its date and notes cells read back as the item's |
| CsvItems.HeldNumbers | src/utils/csv.ts:455-459 | its numeric cells read back as the item's counters |
| CsvItems.ValidateHeldItem | src/utils/csv.ts:431-487 | a record holding an exportable item validates to that item, with missing stars read as 0 |
| CsvItems.ExportRoundTrip | src/utils/csv.ts:492-512 | exporting an item and importing it in the legacy format gives the item back, with missing stars read as 0 |
| Normalize.Min3 | src/utils/normalize.ts:48-52 | `Math.min` of three: at most each, and one of them |
| Normalize.LevenshteinDistance | src/utils/normalize.ts:34-57 | the matrix filling returns the recursive Levenshtein distance |
| Normalize.FillRow | src/utils/normalize.ts:46-53 | one row of the matrix is filled with the distances of prefixes, the rows below untouched |
| Normalize.DistanceToEmpty | src/utils/normalize.ts:37-43 | the distance to the empty string is the length |
| Normalize.LevUpper | src/utils/normalize.ts:46-53 | a cell is at most the longer prefix length |
| Normalize.LevLower | src/utils/normalize.ts:46-53 | a cell is at least the difference of the prefix lengths |
| Normalize.LevBounds | src/utils/normalize.ts:34-57 | the distance lies between the length difference and the longer length |
| Normalize.LevOfEqual | src/utils/normalize.ts:34-57 | equal prefixes are at distance 0 |
| Normalize.LevZeroEqual | src/utils/normalize.ts:34-57 | distance 0 implies equal prefixes |
| Normalize.LevZero | src/utils/normalize.ts:34-57 | distance 0 exactly for equal prefixes |
| Normalize.LevSymmetric | src/utils/normalize.ts:34-57 | the distance is symmetric |
| Normalize.DistanceSpec | src/utils/normalize.ts:34-57 | 0 exactly for equal strings, symmetric, and bounded by the lengths |
| Normalize.SimilaritySpec | src/utils/normalize.ts:62-68 | the ratio lies in [0, 1], is 1 exactly for equal strings, and is symmetric |
| Normalize.Similarity | src/utils/normalize.ts:62-68 | `(maxLength - distance) / maxLength`, 1 for two empty strings; what it promises is the contract of `Normalize.SimilaritySpec` |
| Normalize.Ratio | src/utils/normalize.ts:67 | the quotient lies in [0, 1] and is 1 exactly when both parts are equal |
| Normalize.IsSimilarTextSpec | src/utils/normalize.ts:21-29 | equal normal forms are similar at any threshold; the test is symmetric; above 1 only equal normal forms pass |
| Normalize.IsSimilarText | src/utils/normalize.ts:21-29 | equal normal forms, else the similarity against the threshold; what it promises is the contract of `Normalize.IsSimilarTextSpec` |
| Normalize.FillGroupsBound | src/utils/normalize.ts:81 | a tag has at most as many optional subtags as the pattern has groups |
| Normalize.ValidTagShape | src/utils/normalize.ts:80-83 | a valid tag has at most five parts and a 2–3 letter primary code |
| Normalize.ValidPrimary | src/utils/normalize.ts:80-83 | every primary code of two or three ASCII letters is a valid tag on its own |
| Normalize.ValidWithRegion | src/utils/normalize.ts:80-83 | every such primary code followed by `-` and a two-letter region is a valid tag |
| Normalize.ValidTagExample | src/utils/normalize.ts:80-83 | `en-US` is a valid tag |
| Normalize.InvalidTagExamples | src/utils/normalize.ts:80-83 | `en_US` and `en-` are not |
| Normalize.IsValidLanguageTag | src/utils/normalize.ts:80-83 | the BCP-47 pattern as a primary code of 2–3 letters and the optional groups in order; what it promises is stated by `Normalize.ValidTagShape` (valid tags have this shape) and its converses `Normalize.ValidPrimary` and `Normalize.ValidWithRegion` |
| Normalize.ExtractLanguageCode | src/utils/normalize.ts:73-75 | the prefix before the first `-`, free of `-` |
| Normalize.ExtractLanguageCodeIdempotent | src/utils/normalize.ts:73-75 | extracting twice is extracting once |
| Normalize.LanguageName | src/utils/normalize.ts:88-122 | a name exactly for the listed codes, the listed one |
| Normalize.NamesNonEmpty | src/utils/normalize.ts:88-122 | every listed name is non-empty |
| Normalize.DisplayNameSpec | src/utils/normalize.ts:127-129 | a listed code shows its name, any other code shows itself |
| Normalize.DisplayNameExamples | src/utils/normalize.ts:127-129 | `en`, `zh-TW` and an unlisted code display as expected |
| Learning.Tier | src/utils/learning.ts:12-13 | tier 0 exactly for never-studied items, else 1 |
| Learning.DateOf | src/utils/learning.ts:25-26 | a missing or empty date is time 0, otherwise the parsed date |
| Learning.Compare | src/utils/learning.ts:10-29 | unstudied first, then more errors first, then older review first |
| Learning.CompareAntisymmetric | src/utils/learning.ts:10-29 | swapping the arguments negates the result |
| Learning.CompareZero | src/utils/learning.ts:10-29 | equal keys compare equal; with readable dates only they do |
| Learning.CompareTransitive | src/utils/learning.ts:10-29 | with readable dates the order is transitive |
| Learning.Insert | src/utils/learning.ts:34-36 | an insertion step adds exactly the element, after every element not above it |
| Learning.SortByLearningPriority | src/utils/learning.ts:34-36 | the result is a permutation of the input |
| Learning.InitAdjacentSorted | src/utils/learning.ts:34-36 | dropping the last element keeps neighbours in order |
| Learning.SnocAdjacentSorted | src/utils/learning.ts:34-36 | appending an element not below the last keeps neighbours in order |
| Learning.InsertAdjacentSorted | src/utils/learning.ts:34-36 | insertion keeps neighbours in order |
| Learning.SortAdjacentSorted | src/utils/learning.ts:34-36 | the sorted list has its neighbours in order |
| Learning.AdjacentToSorted | src/utils/learning.ts:10-36 | with readable dates, neighbours in order means every pair in order |
| Learning.SortSorted | src/utils/learning.ts:34-36 | with readable dates the result is sorted |
| Learning.OfKeySnoc | src/utils/learning.ts:34-36 | the items of a key in a list extended by one |
| Learning.InsertStable | src/utils/learning.ts:34-36 | insertion keeps the order of items with equal keys |
| Learning.SortStable | src/utils/learning.ts:34-36 | the sort is stable: items with equal keys keep their order |
| Learning.NeedsReviewSpec | src/utils/learning.ts:53-63 | never studied, with errors or undated means review; otherwise review exactly when the elapsed days reach the threshold |
| Learning.NeedsReview | src/utils/learning.ts:53-63 | the review test; what it promises is the contract of `Learning.NeedsReviewSpec` |
| Learning.DaysAtLeast | src/utils/learning.ts:60-62 | comparing days is comparing milliseconds against the threshold times a day |
| Learning.Round | src/utils/learning.ts:75 | `Math.round`: the nearest integer, halves up |
| Learning.ProgressSpec | src/utils/learning.ts:68-76 | 0 before the first study, a percentage in [0, 100] for non-negative counts, 100 without errors |
| Learning.CalculateLearningProgress | src/utils/learning.ts:68-76 | the rounded success percentage; what it promises is the contract of `Learning.ProgressSpec` |
| WordPairs.Targets | src/stores/useWordsStore.ts:77-78 | the inner loop's index pairs: source `i`, each target below `j` other than `i` |
| WordPairs.Sources | src/stores/useWordsStore.ts:76-78 | the outer loop's index pairs are off-diagonal with sources below `i` |
| WordPairs.SourcesCount | src/stores/useWordsStore.ts:76-78 | `i` sources give i(n-1) pairs |
| WordPairs.TargetsSortedAndComplete | src/stores/useWordsStore.ts:77-78 | the inner loop's pairs are in order and include every other target |
| WordPairs.SourcesSortedAndComplete | src/stores/useWordsStore.ts:76-78 | the outer loop's pairs are in lexicographic order and include every off-diagonal pair |
| WordPairs.SourcesHead | src/stores/useWordsStore.ts:76-78 | the first source's pairs come first |
| WordPairs.IndexPairs | src/stores/useWordsStore.ts:76-78 | every visited pair has two different indices below n |
| WordPairs.IndexPairsSortedAndComplete | src/stores/useWordsStore.ts:76-78 | n(n-1) pairs, lexicographically ordered, each ordered pair of different indices once |
| WordPairs.ItemsAtAppend | src/stores/useWordsStore.ts:76-96 | items of concatenated pair lists are concatenated |
| WordPairs.RowTargetsAre | src/stores/useWordsStore.ts:77-95 | the inner loop's items are those of its index pairs |
| WordPairs.ItemsAtSingle | src/stores/useWordsStore.ts:79-86 | one index pair gives its one item |
| WordPairs.RowSourcesAre | src/stores/useWordsStore.ts:76-96 | the outer loop's items are those of its index pairs |
| WordPairs.RowPairsAre | src/stores/useWordsStore.ts:74-96 | a row's items are those of its index pairs, N(N-1) for N languages |
| WordPairs.RowPairsSplit | src/stores/useWordsStore.ts:76-96 | the first language's items come first |
| WordPairs.RowPairsCover | src/stores/useWordsStore.ts:74-96 | a row's items are exactly the items of its pairs of different languages |
| WordPairs.RowPairsDistinct | src/stores/useWordsStore.ts:79-86 | items pair different languages, no two share a pair, and texts are what `row.words[lang]` returns |
| WordPairs.BaseId | src/stores/useWordsStore.ts:135 | `id.split('_')[0]`: a prefix free of `_` |
| WordPairs.BaseIdOfPairId | src/stores/useWordsStore.ts:82 | a row id without `_` is recovered from every composite id built on it |
| WordPairs.RowPairsBaseId | src/stores/useWordsStore.ts:82 | all items of such a row have the row id as base id |
| WordPairs.RowPairsOfSmallRow | src/stores/useWordsStore.ts:76-78 | a row with fewer than two languages yields no item |
| WordPairs.AllPairsSnoc | src/stores/useWordsStore.ts:73-97 | one more row appends its items |
| WordPairs.AllPairsAppend | src/stores/useWordsStore.ts:73-97 | the expansion distributes over concatenation |
| WordPairs.AllPairs | src/stores/useWordsStore.ts:73-97 | every row's items, row after row; what it promises is stated by `WordPairs.AllPairsSnoc`, `WordPairs.AllPairsAppend` and `WordPairs.RowPairsAre` |
| WordPairs.ExpandRows | src/stores/useWordsStore.ts:264-292 | the imperative expansion loop gives every row's items in row order |
| WordPairs.ExpandRow | src/stores/useWordsStore.ts:268-291 | the imperative nested loops for one row give its items |
| WordPairs.Observe | src/stores/useWordsStore.ts:333-334 | both texts are set, the target last; all other languages unchanged; keys stay unique |
| WordPairs.CollapseOntoSnoc | src/stores/useWordsStore.ts:315-335 | one more saved item is one more loop iteration |
| WordPairs.CollapseOntoAppend | src/stores/useWordsStore.ts:315-335 | the restore loop over concatenated lists composes |
| WordPairs.RestoredRows | src/stores/useWordsStore.ts:319-329 | one restored row per row |
| WordPairs.AbsorbComplete | src/stores/useWordsStore.ts:332-334 | an item of an already complete row changes nothing |
| WordPairs.RowIndexIs | src/stores/useWordsStore.ts:318 | a row whose id no earlier row has is found at its position |
| WordPairs.CollapseComplete | src/stores/useWordsStore.ts:315-335 | items of an already complete row change nothing |
| WordPairs.AbsorbFirst | src/stores/useWordsStore.ts:318-334 | a row's first item opens it with its first two languages |
| WordPairs.AbsorbNextKey | src/stores/useWordsStore.ts:332-334 | each later item of the first source adds the next language |
| WordPairs.NoSelfTarget | src/stores/useWordsStore.ts:78 | the first source has no item with itself |
| WordPairs.CollapseFirstSource | src/stores/useWordsStore.ts:315-335 | the first source's items rebuild the row language by language |
| WordPairs.FirstSourceIsWhole | src/stores/useWordsStore.ts:76-78 | the first source's items cover every language |
| WordPairs.CollapseRowPairs | src/stores/useWordsStore.ts:315-335 | restoring one row's items appends that row, as far as persisted |
| WordPairs.NotYetRestored | src/stores/useWordsStore.ts:318 | with distinct ids no earlier restored row has the next row's id |
| WordPairs.RestoreAfterExpand | src/stores/useWordsStore.ts:261-337 | restoring the expansion of rows with distinct `_`-free ids and two or more languages gives the rows back, progress emptied |
| WordPairs.CollapseItems | src/stores/useWordsStore.ts:313-337 | the imperative restore loop equals its specification |
| WordPairs.AbsorbItem | src/stores/useWordsStore.ts:316-334 | one imperative loop step equals its specification |
| WordPairs.CollapsePrefix | src/stores/useWordsStore.ts:315-335 | the loop's state after k+1 items |
| WordPairs.BaseIds | src/stores/useWordsStore.ts:316 | the base id of each saved item |
| WordPairs.AbsorbIds | src/stores/useWordsStore.ts:318-330 | an item opens a row for its base id unless one exists |
| WordPairs.CollapseIds | src/stores/useWordsStore.ts:313-337 | restored rows appear in order of first occurrence of their base ids |
| WordPairs.RestoredIds | src/stores/useWordsStore.ts:313-337 | one row per distinct base id, in order of first occurrence, no two alike |
| WordPairs.Group | src/stores/useWordsStore.ts:316 | the saved items with a given base id |
| WordPairs.GroupEmpty | src/stores/useWordsStore.ts:316 | an absent base id has an empty group |
| WordPairs.GroupedOther | src/stores/useWordsStore.ts:332-334 | an item of another row leaves a row's group intact |
| WordPairs.GroupSnoc | src/stores/useWordsStore.ts:316 | a group grows by the item exactly when it has the base id |
| WordPairs.GroupedExtend | src/stores/useWordsStore.ts:332-334 | writing an item's texts extends its row's group |
| WordPairs.GroupedNew | src/stores/useWordsStore.ts:318-334 | a new base id opens the row of its one-item group |
| WordPairs.AbsorbGrouped | src/stores/useWordsStore.ts:315-335 | a loop step keeps every row the row of its group |
| WordPairs.AbsorbGroupedAt | src/stores/useWordsStore.ts:332-334 | the found row stays the row of its group |
| WordPairs.AbsorbGroupedNew | src/stores/useWordsStore.ts:318-334 | the opened row is the row of its group |
| WordPairs.GroupedOthers | src/stores/useWordsStore.ts:332-334 | other rows' groups are unaffected |
| WordPairs.GroupedSnoc | src/stores/useWordsStore.ts:337 | appending a grouped row keeps the rows grouped |
| WordPairs.CollapseGrouped | src/stores/useWordsStore.ts:305-345 | each restored row has its group's first item's stats and all its items' texts, later ones winning |
| WordPairs.Collapse | src/stores/useWordsStore.ts:313-337 | the restore loop from no rows; what it promises is stated by `WordPairs.RestoredIds`, `WordPairs.CollapseGrouped` and `WordPairs.RestoreAfterExpand` |
| WordPairs.AbsorbWellFormed | src/stores/useWordsStore.ts:316-334 | a loop step keeps every row's languages listed once |
| WordPairs.CollapseOntoWellFormed | src/stores/useWordsStore.ts:313-337 | the restore loop keeps every row's languages listed once |
| WordPairs.CollapseWellFormed | src/stores/useWordsStore.ts:313-337 | every restored row lists each of its languages once |
| LanguagePairs.GenerateLanguagePairs | src/utils/csv.ts:536-565 | the imperative loop equals its specification |
| LanguagePairs.PairsOfRows | src/utils/csv.ts:536-565 | `generateLanguagePairs` as a function of the rows; what it promises is stated by `LanguagePairs.PairsOfRowsSpec` and `LanguagePairs.PairsOfRowsInAllPairs` |
| LanguagePairs.PairOfRowShape | src/utils/csv.ts:544-560 | a row's item has the requested languages and non-empty texts |
| LanguagePairs.PairsOfRowsFrom | src/utils/csv.ts:542-563 | at most one item per row, each the item of some row |
| LanguagePairs.PairsOfRowsComplete | src/utils/csv.ts:542-563 | every row with both texts contributes its item |
| LanguagePairs.PairsOfRowsSpec | src/utils/csv.ts:536-565 | at most one item per row, each of the requested pair with non-empty texts from some row; every row with both texts contributes |
| LanguagePairs.PairsOfRowsInAllPairs | src/utils/csv.ts:536-565 | for two different languages every generated item is also one of the full expansion's |
| LanguagePairs.PairOfRowIsPair | src/utils/csv.ts:544-560 | a row's item for a pair is one of that row's expanded items |
| LanguagePairs.InAllPairs | src/stores/useWordsStore.ts:367-396 | each row's items are in the full expansion |
| LanguagePairs.LanguagesSpec | src/utils/csv.ts:572-577 | the collected languages are exactly the rows' keys, each once |
| LanguagePairs.PairsAt | src/utils/csv.ts:581-590 | one language pair per index pair |
| LanguagePairs.PairsAtDistinct | src/utils/csv.ts:581-590 | distinct languages at sorted off-diagonal index pairs give distinct pairs of different languages |
| LanguagePairs.PairsAtComplete | src/utils/csv.ts:581-590 | every pair of different listed languages is produced |
| LanguagePairs.AllLanguagePairsSpec | src/utils/csv.ts:570-593 | every ordered pair of different languages of the rows, each once, L(L-1) of them |
| LanguagePairs.CollectLanguages | src/utils/csv.ts:572-577 | the imperative set build equals its specification |
| LanguagePairs.OrderedPairs | src/utils/csv.ts:580-590 | the imperative double loop equals its specification |
| LanguagePairs.PairsFrom | src/utils/csv.ts:582-589 | the imperative inner loop equals its specification |
| LanguagePairs.PairsAtAppend | src/utils/csv.ts:581-590 | pairs of concatenated index lists are concatenated |
| LanguagePairs.GetAllLanguagePairs | src/utils/csv.ts:570-593 | the imperative `getAllLanguagePairs` equals its specification |
| WordsStore.LearnedWords | src/stores/useWordsStore.ts:21-23 | the number of rows with `times > 0`, at most the number of rows |
| WordsStore.StudiedCount | src/stores/useWordsStore.ts:21-23 | the filter keeps as many rows as there are positions with `times > 0` |
| WordsStore.LearnedWordsSpec | src/stores/useWordsStore.ts:21-23 | 0 exactly when no row was studied; all rows exactly when every row was; a row added last adds one exactly when it was studied |
| WordsStore.CountKeysSpec | src/stores/useWordsStore.ts:35-37 | each language's counter grows by its number of occurrences |
| WordsStore.RowKeys | src/stores/useWordsStore.ts:35 | a row's keys are listed once each |
| Seqs.FilterSnoc | src/stores/useWordsStore.ts:33 | the rows with a language, one row more |
| WordsStore.LanguageDistributionCounts | src/stores/useWordsStore.ts:31-40 | each language's count is the number of rows that have it, and it is listed exactly when that is positive |
| WordsStore.LanguageDistributionSpec | src/stores/useWordsStore.ts:31-40 | lookup gives the number of rows with the language, or nothing when none has it |
| WordsStore.LanguageDistribution | src/stores/useWordsStore.ts:31-40 | every row's languages counted, row after row; what it promises is the contract of `WordsStore.LanguageDistributionCounts` and `WordsStore.LanguageDistributionSpec` |
| WordsStore.MergeSpec | src/stores/useWordsStore.ts:113 | an empty patch changes nothing, a patch twice is once, two patches are their combination |
| WordsStore.ApplyItemPatch | src/stores/useWordsStore.ts:165-169 | exactly the given statistics change; id, words, stars and progress stay |
| WordsStore.NewRow | src/stores/useWordsStore.ts:143-156 | the new row has the base id, both texts, the item's statistics, no other language and empty progress |
| WordsStore.RowIndexAppend | src/stores/useWordsStore.ts:102 | an appended row with a new id is the first with that id |
| WordsStore.RowIndexUpdate | src/stores/useWordsStore.ts:138-139 | editing a row in place keeps where its id is found |
| WordsStore.Store.constructor | src/stores/useWordsStore.ts:13-16 | no rows, clean, no error |
| WordsStore.Store.LoadFromCsv | src/stores/useWordsStore.ts:43-68 | all or nothing: any import error keeps the rows and returns the errors; otherwise the rows are the parsed rows, persisted, and every row lists its languages once |
| WordsStore.Store.ExportCsv | src/stores/useWordsStore.ts:70-99 | the export records of every row's items with stars |
| WordsStore.Store.AddRow | src/stores/useWordsStore.ts:101-108 | the row goes last, the store is dirty, well-formedness kept |
| WordsStore.Store.UpdateRow | src/stores/useWordsStore.ts:110-119 | the first row with the id takes the patch; no such row changes nothing; a patch whose words list each language once keeps the rows well-formed |
| WordsStore.Store.DeleteRow | src/stores/useWordsStore.ts:121-130 | only the first row with the id is removed; no such row changes nothing |
| WordsStore.Store.AddItem | src/stores/useWordsStore.ts:133-159 | the row with the base id gets both texts, or a new row is appended; afterwards the base id's row holds the texts |
| WordsStore.Store.UpdateItem | src/stores/useWordsStore.ts:161-175 | the base id's row gets the given statistics; no such row changes nothing |
| WordsStore.Store.DeleteItem | src/stores/useWordsStore.ts:177-180 | the whole row of the base id is removed |
| WordsStore.Store.BulkAddToQueue | src/stores/useWordsStore.ts:193-197 | only marks the store dirty |
| WordsStore.Store.Persist | src/stores/useWordsStore.ts:261-303 | saves every row's items without stars; success clears dirty, failure records the message |
| WordsStore.Store.Restore | src/stores/useWordsStore.ts:305-345 | the rows regrouped from the loaded items, well-formed, or kept with the failure recorded |
| WordsStore.Store.ClearError | src/stores/useWordsStore.ts:347-349 | only the error is cleared |
| WordsStore.Store.Reset | src/stores/useWordsStore.ts:351-355 | no rows, clean, no error |
| WordsStore.Store.GetLanguagePairs | src/stores/useWordsStore.ts:358-360 | the items of the pair over the rows |
| WordsStore.Store.GetAllAvailableLanguagePairs | src/stores/useWordsStore.ts:362-364 | every ordered language pair of the rows |
| WordsStore.Store.GetAllItems | src/stores/useWordsStore.ts:367-396 | every row's items with stars |
| WordsStore.PersistRestore | src/stores/useWordsStore.ts:261-337 | what `persist` saves `restore` turns back into the same rows without stars and progress, for distinct `_`-free ids and two or more languages per row |
| WordsStore.DeleteItemFindsRow | src/stores/useWordsStore.ts:177-180 | deleting any item of a row with a `_`-free id targets that row |
| WordsStore.SkippedStage | src/stores/useWordsStore.ts:203-238 | a filter that is switched off keeps everything |
| WordsStore.Then | src/stores/useWordsStore.ts:203-238 | two filters in a row are one by their conjunction |
| WordsStore.FilteredSpec | src/stores/useWordsStore.ts:199-241 | `filtered` keeps, in order, exactly the items passing every filter |
| WordsStore.Filtered | src/stores/useWordsStore.ts:199-241 | the six filters one after the other; what it promises is the contract of `WordsStore.FilteredSpec` |
| WordsStore.DateBoundsSpec | src/stores/useWordsStore.ts:217-228 | a `from` bound drops undated items, a `to` bound keeps them |
| WordsStore.WordsNeedingReview | src/stores/useWordsStore.ts:247-259 | exactly the items that need review, each occurrence kept and in their order |
| QueueStore.Added | src/stores/useQueueStore.ts:57-61 | the queue is kept as a prefix; the appended ids are the argument's ids not already queued, in argument order, each occurrence kept |
| QueueStore.RemoveFirst | src/stores/useQueueStore.ts:70-76 | the first occurrence of the id is removed when present, else unchanged |
| QueueStore.RemoveAll | src/stores/useQueueStore.ts:78-81 | exactly the ids not in the argument remain, in their order, each occurrence kept |
| QueueStore.MovedToTop | src/stores/useQueueStore.ts:88-95 | the first occurrence of the id is taken out and put at the front; a permutation; unchanged when absent |
| QueueStore.MovedToBottom | src/stores/useQueueStore.ts:97-104 | the first occurrence of the id is taken out and put at the back; a permutation; unchanged when absent |
| QueueStore.SpliceStart | src/stores/useQueueStore.ts:107-108 | `splice`'s start index is clamped into the list and unchanged when in range |
| QueueStore.Reordered | src/stores/useQueueStore.ts:106-110 | a permutation putting the removed id at the insertion index, the others in their order |
| QueueStore.NextItem | src/stores/useQueueStore.ts:116-123 | nothing for an empty queue; otherwise the first item whose id is the head, nothing exactly when none matches |
| QueueStore.RandomItem | src/stores/useQueueStore.ts:125-132 | nothing for an empty queue; otherwise the first item whose id is the drawn entry, nothing exactly when none has it |
| QueueStore.QueueItems | src/stores/useQueueStore.ts:17-26 | at most one item per queued id, each the first item with its id, for a queued id |
| QueueStore.QueueItemsSpec | src/stores/useQueueStore.ts:17-26 | the listed items' ids are the queued ids that have an item, in queue order with every occurrence; each is the first item with its id; when every queued id is known, all are listed |
| QueueStore.QueueItemsIds | src/stores/useQueueStore.ts:17-26 | the ids of the listed items are the queue filtered by having an item |
| QueueStore.AddedNoDup | src/stores/useQueueStore.ts:57-61 | adding duplicate-free ids keeps a duplicate-free queue |
| QueueStore.AddedIdempotent | src/stores/useQueueStore.ts:57-61 | adding the same ids twice is adding them once |
| QueueStore.AddSingleIsAdd | src/stores/useQueueStore.ts:63-68 | `addSingle` is `add` of one id |
| QueueStore.RemoveUndoesAddSingle | src/stores/useQueueStore.ts:63-76 | removing a newly added id restores the queue |
| QueueStore.RemoveFirstNoDup | src/stores/useQueueStore.ts:70-76 | in a duplicate-free queue `remove` removes the id completely |
| QueueStore.RemoveAllUndoesAdd | src/stores/useQueueStore.ts:57-81 | removing the added ids undoes the addition |
| QueueStore.RemoveAtKeepsOthers | src/stores/useQueueStore.ts:73 | removing an occurrence keeps the other ids in order |
| QueueStore.MovesKeepOthers | src/stores/useQueueStore.ts:70-104 | remove and both moves keep the other ids in their order |
| QueueStore.MoveToTopIdempotent | src/stores/useQueueStore.ts:88-95 | moving to the top twice is once |
| QueueStore.MoveToBottomIdempotent | src/stores/useQueueStore.ts:97-104 | moving to the bottom twice is once, in a duplicate-free queue |
| QueueStore.NextItemAfterMoveToTop | src/stores/useQueueStore.ts:88-123 | after moving an id to the top the next item is that id's item |
| QueueStore.ReorderUndo | src/stores/useQueueStore.ts:106-110 | reordering back with swapped indices restores the queue |
| QueueStore.Queue.constructor | src/stores/useQueueStore.ts:12-14 | empty queue, no error |
| QueueStore.Queue.LoadQueue | src/stores/useQueueStore.ts:33-46 | the loaded ids, or the queue kept and the failure recorded |
| QueueStore.Queue.SaveQueue | src/stores/useQueueStore.ts:48-55 | saves the ids; a failure is recorded |
| QueueStore.Queue.Add | src/stores/useQueueStore.ts:57-61 | the queue becomes `Added` |
| QueueStore.Queue.AddSingle | src/stores/useQueueStore.ts:63-68 | the id is appended unless queued |
| QueueStore.Queue.Remove | src/stores/useQueueStore.ts:70-76 | the first occurrence is removed |
| QueueStore.Queue.RemoveMultiple | src/stores/useQueueStore.ts:78-81 | every listed id is removed |
| QueueStore.Queue.Clear | src/stores/useQueueStore.ts:83-86 | the queue is empty |
| QueueStore.Queue.MoveToTop | src/stores/useQueueStore.ts:88-95 | the queue becomes `MovedToTop`: the first occurrence of the id moved to the front |
| QueueStore.Queue.MoveToBottom | src/stores/useQueueStore.ts:97-104 | the queue becomes `MovedToBottom`: the first occurrence of the id moved to the back |
| QueueStore.Queue.Reorder | src/stores/useQueueStore.ts:106-110 | the queue becomes `Reordered` |
| QueueStore.Queue.IsInQueue | src/stores/useQueueStore.ts:112-114 | true exactly when the id is queued |
| QueueStore.Queue.QueueLength | src/stores/useQueueStore.ts:28 | the number of queued ids |
| QueueStore.Queue.IsEmpty | src/stores/useQueueStore.ts:30 | true exactly when the length is 0 |
| QueueStore.Queue.GetNextItem | src/stores/useQueueStore.ts:116-123 | the next item of the queue |
| QueueStore.Queue.GetRandomItem | src/stores/useQueueStore.ts:125-132 | the item of the drawn position |
| QueueStore.Queue.Shuffle | src/stores/useQueueStore.ts:134-140 | the in-place swaps leave a permutation of the queue |
| QueueStore.Queue.ClearError | src/stores/useQueueStore.ts:142-144 | only the error is cleared |
| QueueStore.Queue.Reset | src/stores/useQueueStore.ts:146-149 | empty queue, no error |
| Tts.NormalizeLanguageCode | src/utils/tts.ts:206-226 | a listed lower-cased code maps to its full tag, any other is kept |
| Tts.BaseCode | src/utils/tts.ts:234 | a prefix of the tag free of `-` |
| Tts.FirstSimilar | src/utils/tts.ts:248-254 | the first voice of the first similar code, in listed order, that some voice starts with; nothing exactly when none does |
| Tts.SimilarHead | src/utils/tts.ts:249-251 | a voice found for the first code is the choice |
| Tts.SimilarTail | src/utils/tts.ts:249-252 | with no voice for the first code, the choice among the rest is the choice |
| Tts.BestVoice | src/utils/tts.ts:228-258 | nothing exactly for no voices; the first exact match, else the first base-code prefix match, else the first voice of the first similar code that has one, else `voices[0]` |
| Tts.FindBestVoiceForLanguage | src/utils/tts.ts:228-258 | the imperative search with its early returns equals its specification |
| Tts.DefaultVoice | src/utils/tts.ts:292-308 | nothing exactly for no voices; the first exact match, else the first base-code prefix match, else the first voice |
| Tts.FilterVoices | src/utils/tts.ts:38-50 | the wanted voices, in list order, converted to `VoiceInfo` |
| Tts.FilterVoicesSpec | src/utils/tts.ts:38-50 | every wanted voice is kept, nothing else, no more than given |
| Tts.InfosCons | src/utils/tts.ts:46-50 | converting a list with a voice in front puts its conversion in front |
| Tts.InfosOfFilter | src/utils/tts.ts:38-50 | the converted filter holds the conversion of each kept voice and nothing else |
| Tts.WantedIsPrefix | src/utils/tts.ts:41-43 | for a non-empty tag, wanted exactly when the voice tag starts with its base code |
| Tts.CreateTtsEngine | src/utils/tts.ts:265-272 | an engine exactly for `WebSpeech`, otherwise the unknown-provider error |
| Tts.GetAvailableProviders | src/utils/tts.ts:277-279 | a single provider |
| Tts.ProvidersCreatable | src/utils/tts.ts:265-279 | a provider is buildable exactly when it is listed |
| Tts.NormalizeIdempotent | src/utils/tts.ts:206-226 | normalizing twice is normalizing once |
| Tts.FindInfo | src/utils/tts.ts:292-308 | searching converted voices is converting the search result |
| Tts.Infos | src/utils/tts.ts:46-50 | each voice converted, in order |
| Tts.DefaultAgreesWithBest | src/utils/tts.ts:228-308 | with no similar codes the default voice is the best voice, converted |
| SettingsStore.FirstWithPrefix | src/stores/useSettingsStore.ts:110-115 | the voice of the first entry, in insertion order, whose tag has the prefix; nothing exactly when no entry has it |
| SettingsStore.FirstPrefixedTail | src/stores/useSettingsStore.ts:110-115 | when entry 0 lacks the prefix, the first match among the later entries is the first match |
| SettingsStore.WebVoiceFor | src/stores/useSettingsStore.ts:89-119 | a non-empty voice of the tag, else of its base code, else the voice of the first `base-` entry; nothing exactly when all three fail |
| SettingsStore.SelectedVoice | src/stores/useSettingsStore.ts:143 | an explicit non-empty voice wins, else the lookup |
| SettingsStore.Settings.constructor | src/stores/useSettingsStore.ts:12-15 | `WebSpeech`, no voices, no error |
| SettingsStore.Settings.LoadSettings | src/stores/useSettingsStore.ts:33-53 | each present saved property replaces the current one (the provider only when non-empty); a failure keeps both and is recorded |
| SettingsStore.Settings.SaveSettings | src/stores/useSettingsStore.ts:55-71 | the saved record of provider, voices and an empty API key; a failure is recorded |
| SettingsStore.Settings.SetTtsProvider | src/stores/useSettingsStore.ts:73-76 | only the provider changes |
| SettingsStore.Settings.SetWebVoice | src/stores/useSettingsStore.ts:78-86 | only the tag's entry changes |
| SettingsStore.Settings.GetWebVoiceForLanguage | src/stores/useSettingsStore.ts:89-119 | the imperative lookup with its loop equals `WebVoiceFor` |
| SettingsStore.Settings.SpeakText | src/stores/useSettingsStore.ts:136-146 | the engine-not-available error exactly when the provider has no engine, otherwise the text, tag and selected voice |
| SettingsStore.Settings.ClearError | src/stores/useSettingsStore.ts:159-161 | only the error is cleared |
| SettingsStore.Settings.Reset | src/stores/useSettingsStore.ts:163-167 | `WebSpeech`, no voices, no error |
| SettingsStore.SetThenLookup | src/stores/useSettingsStore.ts:78-98 | a non-empty voice set for a tag is what the lookup returns for it |
| SettingsStore.SetLeavesOthers | src/stores/useSettingsStore.ts:82-106 | setting one tag leaves other tags' first two tiers as they were |
| SettingsStore.RegionFallsBackToBase | src/stores/useSettingsStore.ts:100-106 | a regional tag without a voice falls back to its base code's voice |
| SettingsStore.ResetLookup | src/stores/useSettingsStore.ts:163-167 | after reset no tag has a voice and an explicit voice is used as given |
| SettingsStore.DefaultProviderSpeaks | src/stores/useSettingsStore.ts:12 | the default provider is listed and buildable |
| Types.RowIndex | src/stores/useWordsStore.ts:111 | `findIndex`: the first row with the id, nothing exactly when none has it |
| OrderedMap.Put | src/stores/useWordsStore.ts:138-139 | `obj[k] = v`: the key is added last if new, maps to the value, and other keys are unchanged |
| OrderedMap.Get | src/stores/useWordsStore.ts:85-86 | a value exactly for present keys |
| OrderedMap.GetIndex | src/stores/useWordsStore.ts:85-86 | a present key has a first entry, and the value read is that entry's |
| Strings.BeforeFirst | src/utils/normalize.ts:74 | `split(sep)[0]`: the longest prefix free of the separator |
| Strings.Trim | src/utils/csv.ts:120 | `trim()`: a slice of the input with only white space cut at either end, and no white space left at its ends |
| Strings.TrimIdempotent | src/utils/csv.ts:120 | trimming twice is trimming once |
| Strings.ToLower | src/stores/useWordsStore.ts:232-236 | `toLowerCase()`, character by character on ASCII letters |

## Left out

- The CSV lexer (Papa Parse) is not modelled. Its output (trimmed headers, errors, one record per non-empty line) is the input `Parsed`; `Papa.unparse` is modelled as the map from column to printed cell.
- `readCsvFile`, `validateCsvFile`, `downloadCsv`, `generateExampleCsv*`: browser file and DOM I/O.
- `src/utils/idb.ts` is not part of this model. Loads take a `Result` and saves take the failure's message as parameters.
- The `loading` flags, `async` ordering, and the fire-and-forget save after each action: those saves are separate methods (`Persist`, `SaveQueue`, `SaveSettings`).
- Console logging; the `loadFromCsv` catch branch, because no modelled step throws.
- `WebSpeechTtsEngine` speaking, its speech queue, `cancel`, `listVoices`, `loadWebVoices`, `cancelSpeech`, `isWebSpeechAvailable`, `preloadVoices`: they drive the browser's speech engine.
- `normalizeText` (Unicode NFD, regular-expression removal) is a function parameter of `IsSimilarText`.
- `errorRate` and `getLearningPriorityScore` compute floating-point results from the same counters.
- `formatDate`, `formatDateISO`: locale and clock formatting.
- `totalWords` is `rows.length` and needs no model. `getSortedByPriority` is `Learning.SortByLearningPriority`.
- `bulkAddItems`, `filtered` and `getWordsNeedingReview` read an `items` list the store never declares. `bulkAddItems` is not modelled; the other two take the item list as a parameter.
- `learned` is read by the validators but is not a field of the row or the item, so it is dropped. The export writes it as 0.
- A patch property set explicitly to `undefined`, and prototype-inherited or integer-like object keys, which JavaScript orders first.
- Aliasing: the row objects `persist`, `addItem` and `restore` share are values here.
- The `addedAt` timestamp of `queueItems`.
- Strings.ToLower: lower-cases ASCII letters only, not full Unicode case mapping.
- Tts.FilterVoices: the final sort by `localeCompare` is not modelled; the contract gives the kept voices in input order, the order before that sort.
- QueueStore.Queue.Shuffle: the contract states a permutation, not the uniform distribution, which depends on `Math.random`.
- QueueStore.Queue.Reorder: requires a non-empty queue and `fromIndex` below its length. Otherwise `splice` removes nothing and inserts `undefined`, which a queue of strings cannot hold.
- Learning.Compare: a comparison involving an unparseable date (`NaN`) is read as 0, as `Array.prototype.sort` treats it. Numbers are integers; fractional JavaScript numbers are not modelled.
- Learning.CalculateLearningProgress: the percentage `times * 100 / (times + errors)` is rounded as an exact rational, while the source rounds the double `times / (times + errors) * 100`. Where that double falls just below a half, the source rounds down and the model rounds up (times 23 and errors 17 give 57 in the source, 58 here; times 29 and errors 171 give 14 there, 15 here).
- Normalize.LevenshteinDistance: a Dafny `char` is a Unicode scalar value, while JavaScript's `length` and indexing count UTF-16 code units. A character outside the Basic Multilingual Plane counts once here and twice in the source (the distance from "😀" to "" is 1 here and 2 there), and `Similarity` shifts with it.
- Learning.SortByLearningPriority: modelled as a stable insertion sort, which gives the same order as the stable `Array.prototype.sort` for a consistent comparator.
