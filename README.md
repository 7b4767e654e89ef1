# sahih-explorer data pipeline, in Dafny

sahih-explorer catalogues hadith narrators and hadith narrations as a graph. Scholars are the
nodes. Teacher/student, parent/child, spouse and sibling links are its typed edges. Every hadith
carries its chain of narrators (its isnad), an ordered list of scholar ids. This project models
the deterministic core behind the explorer and proves properties of that model:

- **Chain resolution** (`Isnad`, `GenerateHadithIndex`): a chain of ids becomes narrator views
  in chain order, with one view per id and a fallback for unknown ids.
- **Extraction from the narrator and hadith tables** (`CsvTables`, `ExtractEnhanced`,
  `ExtractData`): bracketed-id parsing, name cleaning, reference resolution, hadith selection by
  chain membership, the influence score, the choice of pre-built files and the search index order.
- **Partitioning and statistics** (`Sitemap`, `GenerateStats`): the two sitemap shards and the
  per-book counts.
- **Locale overlays** (`Translations`, `UpdateTranslations`, `UpdateTranslationsPart2`,
  `ScholarDocuments`, `FileStores`, `FixSearchIndex`, `FixCkbLocale`): table lookups with raw
  fallback, grade display objects, display arrays, place substitution, and the `"ku":` to
  `"ckb":` key rename.
- **Relational export** (`ConvertToSqlite`): the scholar files normalised into in-memory
  relationship, list, hadith and chain tables, with the converter's counters and error list.
- **Hadith table clean-up** (`HadithTable`, `ArabicText`, `MapUscMsaRefs`, `FillMissingEnglish`,
  `FillFromDuplicates`, `FinalTranslate`, `FinalTranslateScript`, `TranslateMissing`,
  `FetchMissingTranslations`, `BukhariText`, `ProcessBukhari`):
  - Arabic and English normal forms;
  - reference mapping;
  - translation filling from editions, from duplicates, from phrase rules and from placeholders;
  - the export of the rows still missing English;
  - the Sahih al-Bukhari flattening with consecutive ids.
- **Surveys** (`Counters`, `AnalyzeData`, `AnalyzeSources`): frequency counters and their
  most-common lists.
- **Record store** (`SqliteClient`): the load-once `db` / `initPromise` state machine and the
  mapping of result sets to row objects.
- **Data shaping in the views** (`FamilyTreeGraph`, `InteractiveFamilyTree`, `NetworkGraph`,
  `HadithList`): label wrapping and the tree hierarchies, the capped teacher/student graph, and
  "load more" pagination.

Shared modules live in `common.dfy`:

- `Wrappers`: `Option`, used for null, None, NaN and undefined.
- `Text`: the whitespace sets of Python and of JavaScript, trimming, splitting, replacing,
  containment, `int()` parsing and ASCII lower-casing.
- `Sorting`: the stable sort that Python's `sort` and JavaScript's `Array.sort` both perform.
- `OrderedMaps`: insertion-ordered dictionaries, Maps and Counters.

Code that changes state is modelled as state:

- Loops that push or count are methods, proved against specification functions.
- DataFrame cell writes are updates of an `array` of rows.
- The converter, the database holder, the scholar documents and the file directory are classes
  whose methods modify their fields.

Files, HTTP responses and DataFrames read from disk are parameters of the model.

## Model

Each row names the member whose contract states the property. A function that only computes has no row of its own: the row of the lemma or method that states its contract covers it. For example:

- `BukhariText.CleanText`: `BukhariText.CleanTextFacts`
- `TranslateMissing.TranslateArabic`: `TranslateMissing.TranslateArabicFacts`
- `MapUscMsaRefs.ShouldUpdate`: `MapUscMsaRefs.NonZeroRefKept`, `MapUscMsaRefs.NanTextUpdated`
- `FinalTranslate.NeedsTranslation`: `FinalTranslate.FinalWriteFacts`
- `FamilyTreeGraph.WrapAsWritten`: `FamilyTreeGraph.WrapText`, `FamilyTreeGraph.WrapLongFirstWord`

| member | source | states |
|---|---|---|
| Isnad.OrElse | lib/isnad.ts:37-38 | `v \|\| fallback`: the fallback unless the value is present and non-empty, in which case the value itself |
| Isnad.EnglishName | lib/isnad.ts:32-33 | the part before the first `(`, trimmed: it contains no `(` and starts and ends with a non-space |
| Isnad.EnglishNameOfPlain | lib/isnad.ts:33 | a name with no `(` and no surrounding whitespace comes back unchanged |
| Isnad.EnglishNameIdempotent | lib/isnad.ts:33 | taking the English part twice gives the same as once |
| Isnad.FirstWithId | lib/isnad.ts:29 | no match exactly when no entry has the id; otherwise the first position holding it |
| Isnad.ViewOf | lib/isnad.ts:29-46 | the view carries the id; an id absent from the index gives `{id, id, '', ''}`; a found id uses the first entry with it; the name holds no `(` unless it is the id |
| Isnad.ResolveIsnadChainSync | lib/isnad.ts:27-48 | one view per id in input order, each depending only on its own id, so duplicate ids give equal views and are kept |
| Isnad.ResolveIsnadChain | lib/isnad.ts:2-24 | one name per id in order; a failed or throwing request falls back to the id; a found record gives its name, else full name, else the id, cut at `(` and trimmed |
| Isnad.UnknownLinkKeepsPosition | lib/isnad.ts:41-46 | an unknown id between two known ones keeps its place and does not disturb its neighbours |
| Isnad.ScenarioViews | lib/isnad.ts:29-46 | the views of two indexed ids and one unknown id, written out |
| Translations.TranslateValue | lib/translations.ts:47-63 | an empty value is returned as is; a trimmed key with a non-empty entry for the locale gives that entry; any miss returns the original, untrimmed value |
| Translations.TranslateArray | lib/translations.ts:66-72 | same length and order, each element translated on its own |
| Translations.BadrIsTranslatedAsTag | lib/translations.ts:34-59 | "Badr" in the tag table is "Battle of Badr" in English and "غزوة بدر" in Arabic |
| Translations.UnknownLocaleFallsBack | lib/translations.ts:57-62 | a locale the tables do not carry, such as "ku", always gives the raw value |
| Translations.TagNeedsTagKind | lib/translations.ts:50-54 | with the default city table a tag-only key is not translated |
| Translations.PaddedKeyHits | lib/translations.ts:55-59 | the key is trimmed, so " Kufa " still finds its Arabic name |
| Translations.PaddedMissKeepsPadding | lib/translations.ts:55-62 | on a miss the original padding is kept |
| SqliteClient.Client.constructor | lib/database/sqliteClient.ts:3-4 | a fresh client has neither a database nor a pending load |
| SqliteClient.Client.InitDatabase | lib/database/sqliteClient.ts:9-47 | a loaded database is returned without loading again; a pending load is joined rather than duplicated; otherwise exactly one new load starts and becomes the pending one |
| SqliteClient.Client.SettleLoad | lib/database/sqliteClient.ts:26-43 | a successful load stores the database; a failed one clears the pending load, so the next call retries, and surfaces the error |
| SqliteClient.Client.GetDatabase | lib/database/sqliteClient.ts:52-57 | the error exactly when no database is loaded, otherwise the loaded one |
| SqliteClient.Client.CloseDatabase | lib/database/sqliteClient.ts:62-68 | a loaded database is forgotten together with its load; with none, nothing changes |
| SqliteClient.Client.Query | lib/database/sqliteClient.ts:73-90 | the not-initialised error exactly without a database; no result set gives `[]`; otherwise one row object per value row of the first result set |
| SqliteClient.Client.QueryOne | lib/database/sqliteClient.ts:95-98 | the first row of `query`, none when it is empty, and its error when it fails |
| SqliteClient.LoadOnceScenario | lib/database/sqliteClient.ts:9-47 | a second call during the load joins it; a failed load is re-thrown and the next call starts a second load; after success the database is returned directly |
| SqliteClient.RowObjectCells | lib/database/sqliteClient.ts:84-87 | the row object's keys are exactly the column names, each holding the cell of its last position |
| SqliteClient.DistinctColumns | lib/database/sqliteClient.ts:84-87 | with distinct column names and a long enough row, each column maps to its own cell |
| Sitemap.BaseUrl | app/sitemap.ts:5 | a non-empty environment value wins; otherwise the default site address |
| Sitemap.GenerateSitemaps | app/sitemap.ts:7-12 | exactly two shards, 0 and 1 |
| Sitemap.ScholarPriority | app/sitemap.ts:46 | 0.9 exactly when the score is present and above 50, 0.6 otherwise |
| Sitemap.BuildSitemap | app/sitemap.ts:14-78 | shard 0 is the two home pages then one scholar route per index entry in order; shard 1 is one hadith route per entry in order; any other id gives nothing |
| Sitemap.BrokenIndexes | app/sitemap.ts:37-74 | with both data files missing, shard 0 keeps its two home pages and shard 1 is empty |
| CsvTables.FindIdsDigits | scripts/extract_enhanced_data.py:19 | every id `re.findall(r'\[(\d+)\]')` finds is a non-empty run of digits |
| CsvTables.TakeRef | scripts/extract_enhanced_data.py:19 | a reference `[id]` yields its id and the scan goes on after the `]` |
| CsvTables.FindRenderedRefs | scripts/extract_enhanced_data.py:19 | scanning a cell written as `Name [id], Name [id]` finds the ids, in order |
| CsvTables.ParseRenderedRefs | scripts/extract_enhanced_data.py:15-20 | `parse_ids` on such a cell gives back exactly its ids, in order |
| ExtractEnhanced.RemoveGroupsNoGroup | scripts/extract_enhanced_data.py:39 | removing the `(...)` groups leaves no group behind |
| ExtractEnhanced.RemoveGroupsOfNoGroup | scripts/extract_enhanced_data.py:39 | text without a group is left as it is |
| ExtractEnhanced.CleanName | scripts/extract_enhanced_data.py:35-42 | the cleaned name has no group, no whitespace runs and no surrounding whitespace |
| ExtractEnhanced.CleanNameIdempotent | scripts/extract_enhanced_data.py:35-42 | cleaning twice gives the same as cleaning once |
| ExtractEnhanced.ParseDateField | scripts/extract_enhanced_data.py:22-33 | none exactly for an empty cell or "NA"; `[s]` for a cell not starting with `[`; a bracketed cell gives the evaluated list, or `[s]` when evaluation fails or is not a list |
| ExtractEnhanced.FindTags | scripts/extract_enhanced_data.py:50 | every tag found is a non-empty run with no `,` and no `[` |
| ExtractEnhanced.ParseTags | scripts/extract_enhanced_data.py:44-51 | every tag is non-empty and already stripped |
| ExtractEnhanced.ParseTagsPlain | scripts/extract_enhanced_data.py:50-51 | a tag never holds a separator or a bracket |
| ExtractEnhanced.PersonsOfFound | scripts/extract_enhanced_data.py:66-72 | each person comes from the table, with the cleaned name and the grade of its row |
| ExtractEnhanced.PersonsOfKnown | scripts/extract_enhanced_data.py:65-72 | ids that are all in the table resolve one for one, in order |
| ExtractEnhanced.PersonsOfUnknown | scripts/extract_enhanced_data.py:66 | an id missing from the table is dropped and leaves the others in place |
| ExtractEnhanced.PersonsOfAppend | scripts/extract_enhanced_data.py:65-72 | resolving two runs of ids one after the other gives the persons of the first run followed by those of the second |
| ExtractEnhanced.ResolvePersonNames | scripts/extract_enhanced_data.py:62-73 | the loop appends exactly the persons of the known ids, in input order |
| ExtractEnhanced.ChainIds | scripts/extract_enhanced_data.py:142-143 | chain ids are trimmed and non-empty |
| ExtractEnhanced.LoadAllHadiths | scripts/extract_enhanced_data.py:135-156 | a missing file gives no hadiths; otherwise one hadith per row, in order, with trimmed non-empty chain ids |
| ExtractEnhanced.HadithsWith | scripts/extract_enhanced_data.py:87-90 | exactly the hadiths whose chain holds the id |
| ExtractEnhanced.GetEnhancedScholarData | scripts/extract_enhanced_data.py:75-133 | none exactly for an id not in the table; otherwise the record carries that id |
| ExtractEnhanced.ScholarDataFacts | scripts/extract_enhanced_data.py:87-130 | the cleaned and full names, the first 50 (or fewer) hadiths with the narrator in the chain, and the count of all of them |
| ExtractEnhanced.LinkCount | scripts/extract_enhanced_data.py:180-181 | zero exactly for "NA" |
| ExtractEnhanced.LinkCountCommas | scripts/extract_enhanced_data.py:180-181 | any other cell counts its commas plus one, so even "" counts 1 |
| ExtractEnhanced.EntriesOfAt | scripts/extract_enhanced_data.py:187-193 | entry k of the index comes from the k-th narrator of the table |
| ExtractEnhanced.BuildIndex | scripts/extract_enhanced_data.py:172-210 | the search index is the entries sorted by score, and files are written for exactly the selected narrators, each holding that narrator's record |
| ExtractEnhanced.FilesOfFacts | scripts/extract_enhanced_data.py:198-203 | a file exists exactly for a narrator "2" or with influence above 10, and holds its record |
| ExtractEnhanced.FilesOfPicked | scripts/extract_enhanced_data.py:198-203 | the files written over a run of narrators are exactly those given a file, each holding what it was given |
| ExtractEnhanced.SearchIndexOrdered | scripts/extract_enhanced_data.py:210 | the index is sorted by score, non-increasing, is a permutation of the entries, and entries with equal scores keep table order |
| ExtractData.RelationsOfFound | scripts/extract_data.py:34-40 | each relation is a narrator of the table, with its raw name and its grade as role |
| ExtractData.RelationsOfKnown | scripts/extract_data.py:33-40 | ids that are all in the table resolve one for one, in order |
| ExtractData.ResolveRelations | scripts/extract_data.py:30-41 | the loop appends exactly the relations of the known bracketed ids, in order |
| ExtractData.GetFamilyTree | scripts/extract_data.py:23-51 | none exactly for an unknown id; otherwise the four relation lists of the narrator's own cells, one level deep whatever the depth |
| ExtractData.ChainPieces | scripts/extract_data.py:60 | one trimmed piece per comma-separated piece, empty ones included |
| ExtractData.RelatedOfExactly | scripts/extract_data.py:61-67 | every related hadith holds the target, and every row whose chain holds it is related |
| ExtractData.RelatedOfSkips | scripts/extract_data.py:61 | a row without the target leaves the related list unchanged |
| ExtractData.GetHadiths | scripts/extract_data.py:53-68 | the loop collects exactly the related rows, in file order |
| ExtractData.Demo | scripts/extract_data.py:70-86 | the output holds the family tree of narrator "2" exactly when that narrator is known, with its id, name and four relation lists as `get_family_tree` builds them, and the first 20 or fewer of its hadiths in file order |
| GenerateHadithIndex.ScholarMap | scripts/generate_hadith_index.py:22 | every key maps to an entry with that id |
| GenerateHadithIndex.ScholarMapLastWins | scripts/generate_hadith_index.py:22 | every id of the index is a key, holding the last entry with that id |
| GenerateHadithIndex.ScholarMapKeys | scripts/generate_hadith_index.py:22 | only ids of the index are keys |
| GenerateHadithIndex.LoadScholarMap | scripts/generate_hadith_index.py:12-22 | a missing search index gives the empty map; every key maps to an entry with that id |
| GenerateHadithIndex.CleanCell | scripts/generate_hadith_index.py:24-27 | NaN gives ""; any other result has no surrounding whitespace |
| GenerateHadithIndex.KeptIdsAreDigits | scripts/generate_hadith_index.py:50 | every kept id is a stripped all-digit piece of the chain, and no piece gives more than one id |
| GenerateHadithIndex.NaNChainIsEmpty | scripts/generate_hadith_index.py:49-50 | a NaN chain reads "nan" and keeps no id |
| GenerateHadithIndex.NarratorFor | scripts/generate_hadith_index.py:55-70 | an unknown id gives "Unknown Scholar (id)" with grade "Unknown" and no death year; a known one its entry, grade defaulting to "Unknown" |
| GenerateHadithIndex.NarratorKeepsId | scripts/generate_hadith_index.py:22-66 | through a map built from the index, each narrator carries the chain id it was made for |
| GenerateHadithIndex.Narrators | scripts/generate_hadith_index.py:53-70 | the inner loop gives one narrator per chain id, in chain order, duplicates included |
| GenerateHadithIndex.NarratorsOf | scripts/generate_hadith_index.py:53-70 | one narrator per chain id, in order |
| GenerateHadithIndex.RowEntriesAt | scripts/generate_hadith_index.py:44-85 | entry i of the output is the entry of row i |
| GenerateHadithIndex.ProcessRow | scripts/generate_hadith_index.py:49-82 | one row's entry, from its chain and its cleaned cells |
| GenerateHadithIndex.ProcessRows | scripts/generate_hadith_index.py:43-85 | at most 1000 entries, those of the first rows in table order |
| GenerateHadithIndex.ProcessHadiths | scripts/generate_hadith_index.py:29-92 | nothing is produced exactly when the table cannot be read; otherwise the entries of the first min(n, 1000) rows |
| GenerateHadithIndex.HadithIdPrefix | scripts/generate_hadith_index.py:73 | the id is "h" followed by the row's hadith id |
| GenerateHadithIndex.MissingSourceColumn | scripts/generate_hadith_index.py:74-75 | without a source column `source` is "Unknown Book" while `book` is "" |
| GenerateStats.CountByBook | scripts/generate-stats.js:14-18 | the per-book object counts every hadith under its book key, with keys in first-seen order; the plain-object exceptions (array-index keys listed first, inherited names such as `constructor`) are under "## Left out" |
| GenerateStats.GenerateStats | scripts/generate-stats.js:8-33 | stats exist exactly when both files were read; then the scholar total is the search-index length, the hadith total the index length, and the per-book counts the tally of book keys |
| GenerateStats.ByBookSumsToTotal | scripts/generate-stats.js:14-23 | the per-book counts add up to the hadith total |
| GenerateStats.ByBookCounts | scripts/generate-stats.js:15-17 | a book is a key exactly when some hadith has that key, and its count is the number of such hadiths |
| GenerateStats.MissingBookIsUnknown | scripts/generate-stats.js:16 | a missing or empty book is counted as "Unknown" |
| GenerateStats.BlankBookIsEmptyKey | scripts/generate-stats.js:16 | a book of only spaces is truthy, so it is trimmed to the empty key rather than "Unknown" |
| Counters.TallyCounts | scripts/analyze_sources.py:6-13 | a counter holds exactly the values counted, each with its number of occurrences |
| Counters.TallySum | scripts/analyze_sources.py:6-13 | the counts of a counter add up to the number of values counted |
| Counters.TallyAbsent | scripts/analyze-data.js:13 | a value never counted is not a key and occurs zero times |
| Counters.MostCommonOrdered | scripts/analyze_sources.py:18 | `most_common` lists entries by non-increasing count, each an entry of the counter |
| Counters.MostCommonAll | scripts/analyze_sources.py:18 | with no cut-off below the number of keys, `most_common` lists every entry exactly once |
| Counters.MostCommonDistinct | scripts/analyze_sources.py:18 | `most_common` lists no key twice |
| Counters.MostCommonCutOff | scripts/analyze-data.js:55-71 | a key that the cut-off leaves out counts no more than the last key listed |
| AnalyzeData.Add | scripts/analyze-data.js:10-14 | a non-empty string adds one under its trimmed value; the empty string and non-strings leave the counter as it was |
| AnalyzeData.AddEach | scripts/analyze-data.js:29 | adding a list counts exactly the kept values of the list, in order |
| AnalyzeData.ScanFile | scripts/analyze-data.js:22-49 | one file feeds each counter exactly the values that file holds for it |
| AnalyzeData.AddPlaces | scripts/analyze-data.js:31-45 | the places counter receives the places of stay, then the birth place, then the death place |
| AnalyzeData.Scan | scripts/analyze-data.js:16-53 | after the directory loop each counter is the tally of the values of every file for it |
| AnalyzeData.AddIgnores | scripts/analyze-data.js:11 | the empty string and every non-string are not counted |
| AnalyzeData.AddCountsTrimmed | scripts/analyze-data.js:12-13 | a non-empty string is counted once, under its trimmed value |
| AnalyzeData.SurveyCounts | scripts/analyze-data.js:6-53 | a key is in a counter exactly when it was added, with the number of times it was added |
| AnalyzeData.BirthAndDeathArePlaces | scripts/analyze-data.js:37-45 | birth and death places are counted as places, after the places of stay, and never as areas or tags |
| AnalyzeData.NonJsonSkipped | scripts/analyze-data.js:22-27 | a file not ending in ".json", or one without a biography, adds nothing to any counter |
| AnalyzeData.TopOrdered | scripts/analyze-data.js:55-71 | each printed list has fifty entries, or every key when there are fewer; by non-increasing count, each an entry of its counter, no key twice, and no key left out counting more than the last printed |
| AnalyzeSources.Count | scripts/analyze_sources.py:9-15 | the sources counter is the tally of the stripped sources, and the mapped counter the tally of the sources of rows with a non-blank reference |
| AnalyzeSources.SourcesSumToRows | scripts/analyze_sources.py:11-13 | every row is counted once: the source counts add up to the number of rows |
| AnalyzeSources.MappedAtMostRows | scripts/analyze_sources.py:12-15 | no source has more mapped rows than rows |
| AnalyzeSources.ReportBounded | scripts/analyze_sources.py:18-19 | the mapped count printed for a source (0 when absent) is at most its row count |
| AnalyzeSources.Report | scripts/analyze_sources.py:17-19 | the report has one line per source |
| AnalyzeSources.ReportOrdered | scripts/analyze_sources.py:18-19 | the lines are by non-increasing count, name no source twice, and carry each source's count and its mapped count |
| UpdateTranslations.WithLang | scripts/update-translations.js:93 | setting one language changes that language only |
| UpdateTranslations.CloseBracket | scripts/update-translations.js:58 | the lazy capture is a prefix of the text immediately followed by `]`, with no `]` and no line terminator inside |
| UpdateTranslations.GenerationKeyIsBracketed | scripts/update-translations.js:58-59 | a generation key, when found, occurs in the grade between `[` and `]` |
| UpdateTranslations.NoBracketNoKey | scripts/update-translations.js:58-59 | a grade without `[` has no generation key |
| UpdateTranslations.CloseBracketFinds | scripts/update-translations.js:58 | on a one-line text with a `]`, the lazy group always matches |
| UpdateTranslations.KeyAfterFirstBracket | scripts/update-translations.js:58-59 | on a one-line grade the key is the text between the first `[` and the next `]` |
| UpdateTranslations.GradeDisplay | scripts/update-translations.js:52-103 | a display exists exactly for a present, non-empty grade; the lookup sees only the tables' own keys, not names inherited from `Object.prototype` (see "## Left out") |
| UpdateTranslations.GetGradeDisplay | scripts/update-translations.js:52-103 | the imperative construction, with the per-language loop, yields the specified display |
| UpdateTranslations.FillLangs | scripts/update-translations.js:83-95 | after the loop over en, ar and ku every language holds its assembled text |
| UpdateTranslations.LangTextOf | scripts/update-translations.js:85-92 | one language's text is the base, then the translated generation in brackets, else the raw key in brackets |
| UpdateTranslations.UnknownBaseIsRaw | scripts/update-translations.js:77-83 | an unknown base grade shows the raw grade string in all three languages |
| UpdateTranslations.BeforeFirst | scripts/update-translations.js:62 | `split('[')[0]` is the text before the first `[` |
| UpdateTranslations.TrimTrailingSpace | scripts/update-translations.js:62 | trimming removes exactly the space before the bracket |
| UpdateTranslations.CloseBracketOf | scripts/update-translations.js:58 | the lazy group captures exactly a bracket-free, one-line key |
| UpdateTranslations.BaseAndGeneration | scripts/update-translations.js:52-103 | a grade "b [g]" has base key `b` and generation key `g`; a known base shows each language as its translation plus the bracketed generation translation or raw key, an unknown base the raw grade |
| UpdateTranslations.BaseKeyOf | scripts/update-translations.js:62 | the base key of "b [g]" is `b` |
| UpdateTranslations.GenerationKeyOf | scripts/update-translations.js:58-59 | the generation key of "b [g]" is `g` |
| UpdateTranslations.CompanionOfTheFirstGeneration | scripts/update-translations.js:20-75 | the tables give "Companion (RA)" and "1st Generation", the documented English display |
| UpdateTranslations.CapitalGenerationIsRaw | scripts/update-translations.js:28-40 | generation keys are case-sensitive: "4th Generation" is not a key while "4th generation" is |
| UpdateTranslations.UntranslatedKeyIsAppended | scripts/update-translations.js:89-92 | an untranslated generation key is appended raw, in brackets, in every language |
| UpdateTranslations.WithGradeDisplay | scripts/update-translations.js:116-121 | a relation entry changes only in `grade_display`, which it has after the update exactly when it had one or has a non-empty grade |
| UpdateTranslations.WithSourceDisplay | scripts/update-translations.js:127-131 | a hadith keeps its source and gains a display only for a source that is a book key |
| UpdateTranslations.ReRunKeepsPersons | scripts/update-translations.js:114-123 | running the relation overlay twice is the same as once |
| UpdateTranslations.ReRunKeepsHadiths | scripts/update-translations.js:126-132 | running the hadith overlay twice is the same as once |
| UpdateTranslations.UpdatePersons | scripts/update-translations.js:116-121 | the loop over a relation list yields each entry with its display |
| UpdateTranslations.UpdateHadithItems | scripts/update-translations.js:127-131 | the loop over the hadiths yields each hadith with its display |
| UpdateTranslations.RelationIndex | scripts/update-translations.js:114 | every relation name has its place in the walk |
| UpdateTranslations.UpdateRelations | scripts/update-translations.js:114-123 | every present relation list is updated entry by entry and no list appears or disappears |
| UpdateTranslations.UpdateScholarObject | scripts/update-translations.js:105-133 | the scholar gains its grade display when its grade has one, every relation list and the hadiths are overlaid, and grade and biography are untouched |
| UpdateTranslations.Graded | scripts/update-translations.js:143-150 | the number of entries with a grade is at most the number of entries |
| UpdateTranslations.UpdateSearchIndex | scripts/update-translations.js:142-151 | every search-index entry gets its display and `indexUpdates` counts the entries with a grade |
| UpdateTranslations.AllGradedCounted | scripts/update-translations.js:143-150 | the count equals the number of entries exactly when every entry has a non-empty grade |
| ScholarDocuments.FindKey | scripts/update-translations-part2.js:136-137 | `Object.keys(dict).find(p)` is the first key satisfying `p`, and none exactly when no key does |
| ScholarDocuments.Get | scripts/update-translations-part2.js:132 | `dict[key]` is present exactly when `key` is a key, and is that key's entry |
| ScholarDocuments.ScholarDocument.constructor | scripts/update-translations.js:167 | a parsed scholar file holds the fields read and no grade display yet |
| UpdateTranslationsPart2.GetTranslation | scripts/update-translations-part2.js:128-138 | null for a missing or empty value; the exact trimmed key's entry when there is one; otherwise the entry of the first key, in key order, that equals the trimmed value ignoring case, and null exactly when no key does |
| UpdateTranslationsPart2.KeyTranslatesToItsEntry | scripts/update-translations-part2.js:130-132 | a trimmed, non-empty key that is listed once translates to its own entry |
| UpdateTranslationsPart2.ItemDisplayFacts | scripts/update-translations-part2.js:150-157 | an untranslated item shows itself in all three languages, a translated one a dictionary entry |
| UpdateTranslationsPart2.DisplayArray | scripts/update-translations-part2.js:146-161 | the display array is parallel to the items: same length, entry `i` for item `i` |
| UpdateTranslationsPart2.ProcessArray | scripts/update-translations-part2.js:140-162 | undefined exactly for a non-array; otherwise the whole parallel display array, whether or not any item was found |
| UpdateTranslationsPart2.PlaceDisplay | scripts/update-translations-part2.js:236-271 | a place display exists exactly when some PLACES key occurs in the place; it uses the first such key in table order, keeps the English text and replaces that key in Arabic and Kurdish |
| UpdateTranslationsPart2.PlaceDisplaySplices | scripts/update-translations-part2.js:251-252 | the Arabic text is the place with the leftmost occurrence of the matched key replaced by its translation |
| UpdateTranslationsPart2.UnmodifiedIsUnchanged | scripts/update-translations-part2.js:273-276 | a biography that is not modified is left exactly as it was |
| UpdateTranslationsPart2.ModifiedAddsDisplay | scripts/update-translations-part2.js:207-272 | a modified biography carries at least one display and keeps its source lists |
| UpdateTranslationsPart2.OverlayIdempotent | scripts/update-translations-part2.js:207-272 | running the biography overlay on its own output changes nothing more |
| UpdateTranslationsPart2.UpdateScholarFile | scripts/update-translations-part2.js:202-277 | only the biography changes, to its overlay, and `modified` is set exactly when a display was written |
| UpdateTranslationsPart2.PlaceStep | scripts/update-translations-part2.js:236-271 | the birth or death step yields the overlaid event and whether it was given a display |
| UpdateTranslationsPart2.WithBookDisplay | scripts/update-translations-part2.js:179-183 | an index entry keeps its book and gains `book_display` exactly when the book translates |
| UpdateTranslationsPart2.WithBookDisplays | scripts/update-translations-part2.js:177-185 | every index entry is overlaid, in order |
| UpdateTranslationsPart2.TranslatedBooks | scripts/update-translations-part2.js:175-183 | `hCount` is at most the number of entries |
| UpdateTranslationsPart2.AllTranslatedCounted | scripts/update-translations-part2.js:175-183 | when every book translates, every entry is counted |
| UpdateTranslationsPart2.UpdateHadithIndex | scripts/update-translations-part2.js:174-188 | the loop overlays every entry and counts exactly the translated ones |
| ConvertToSqlite.WithListRows | scripts/convert_to_sqlite.py:205-223 | writing one list table changes that table only |
| ConvertToSqlite.FirstFailure | scripts/convert_to_sqlite.py:205-223 | a list loop runs over exactly the leading elements that are present and stops at the first null |
| ConvertToSqlite.TextRowsOrder | scripts/convert_to_sqlite.py:205-223 | one row per element, in list order, each with the scholar id |
| ConvertToSqlite.KnownPrefix | scripts/convert_to_sqlite.py:296-303 | the chain loop runs over exactly the leading ids that convert and name a scholar row, and stops at the first other one |
| ConvertToSqlite.RelationshipsCounted | scripts/convert_to_sqlite.py:254-270 | every related entry whose id converts and names a scholar already inserted adds one row of the call's type and one to `relationships_created`; every other entry, an unknown id included, adds one error; no other table or counter changes |
| ConvertToSqlite.ChainPositions | scripts/convert_to_sqlite.py:295-303 | chain row `i` is narrator `i` at position `i` |
| ConvertToSqlite.InsertScholarOutcome | scripts/convert_to_sqlite.py:158-252 | `insert_scholar` returns true exactly when the id converts and no list holds a null; only then is `scholars_processed` incremented, and a failure appends exactly one error naming the id or "unknown" |
| ConvertToSqlite.ListsStepFacts | scripts/convert_to_sqlite.py:204-223 | the list loops succeed exactly when no list holds a null, leave counters and the scholars table alone, and on success append each list's rows |
| ConvertToSqlite.AllRelationshipsFrame | scripts/convert_to_sqlite.py:225-243 | the six relationship calls change neither `scholars_processed`, `hadiths_processed` nor the scholars table |
| ConvertToSqlite.InsertOrReplace | scripts/convert_to_sqlite.py:169-189 | once the id converts, the scholars row for that id is the record's row whatever fails later, and other ids' rows are untouched |
| ConvertToSqlite.LaterRecordWins | scripts/convert_to_sqlite.py:171 | of two records with the same id, the later one's row is kept |
| ConvertToSqlite.ListRowsAfterInsert | scripts/convert_to_sqlite.py:204-246 | after a successful insert every list element was present, and each list table gained that list's rows |
| ConvertToSqlite.ListRowsPerElement | scripts/convert_to_sqlite.py:204-223 | a successful insert adds one places, interests or tags row per element, after the old rows and in list order |
| ConvertToSqlite.AllRelationshipsTables | scripts/convert_to_sqlite.py:225-243 | the relationship calls touch no table but `scholar_relationships` |
| ConvertToSqlite.HadithStepFacts | scripts/convert_to_sqlite.py:274-308 | a hadith row is always inserted; the chain rows up to the first id that does not convert or names no scholar follow it at positions 0, 1, …; `hadiths_processed` grows exactly when every id converts and names a scholar, and otherwise one error is recorded |
| ConvertToSqlite.AllKnown | scripts/convert_to_sqlite.py:296-305 | the chain is inserted entirely exactly when every id converts and names a scholar |
| ConvertToSqlite.RowsOf | scripts/convert_to_sqlite.py:277-290 | the hadith rows are the hadiths' rows, in order |
| ConvertToSqlite.HadithRowsAppended | scripts/convert_to_sqlite.py:272-308 | every hadith of the list gets a row, in order, whatever happens to its chain, and `hadiths_processed` grows by at most the list length |
| ConvertToSqlite.HadithStepRow | scripts/convert_to_sqlite.py:277-305 | one hadith adds exactly its row and at most one to `hadiths_processed` |
| ConvertToSqlite.HadithsDespiteScholarFailure | scripts/convert_to_sqlite.py:329-334 | a file's hadiths are inserted whenever it has some and its id converts, even when `insert_scholar` failed |
| ConvertToSqlite.BadIdWithHadiths | scripts/convert_to_sqlite.py:329-342 | a file with hadiths but an id that does not convert records the scholar error and the read error and changes no table |
| ConvertToSqlite.ForeignKeysGrow | scripts/convert_to_sqlite.py:51-115 | adding scholar rows keeps every reference of the schema valid |
| ConvertToSqlite.RelationshipsKeepKeys | scripts/convert_to_sqlite.py:254-270 | a relationship loop keeps the scholars table and adds only rows whose both ids have scholar rows |
| ConvertToSqlite.AllRelationshipsKeepKeys | scripts/convert_to_sqlite.py:225-243 | the six relationship calls keep every foreign key valid |
| ConvertToSqlite.ListStepKeepsKeys | scripts/convert_to_sqlite.py:204-223 | a list loop of an inserted scholar keeps the scholars table and every foreign key valid |
| ConvertToSqlite.ListsStepKeepsKeys | scripts/convert_to_sqlite.py:204-223 | the three list loops keep the scholars table and every foreign key valid |
| ConvertToSqlite.InsertScholarKeepsKeys | scripts/convert_to_sqlite.py:158-252 | `insert_scholar` keeps every foreign key valid and removes no scholar row |
| ConvertToSqlite.HadithStepKeepsKeys | scripts/convert_to_sqlite.py:274-308 | a hadith's chain rows name scholars that have rows and the hadith row just inserted |
| ConvertToSqlite.InsertHadithsKeepsKeys | scripts/convert_to_sqlite.py:272-308 | `insert_hadiths` keeps every foreign key valid |
| ConvertToSqlite.ProcessKeepsKeys | scripts/convert_to_sqlite.py:310-346 | whatever the file order, every stored list, relationship and chain row names scholars that have rows, and every chain row a hadith that has one: a reference to a scholar not yet inserted is refused, not stored |
| ConvertToSqlite.ScholarDatabaseConverter.constructor | scripts/convert_to_sqlite.py:17-27 | a new converter over a freshly created database file: empty tables and zero counters |
| ConvertToSqlite.ScholarDatabaseConverter.InsertList | scripts/convert_to_sqlite.py:205-223 | one list loop has the effect the specification gives it and reports whether it stopped at a null |
| ConvertToSqlite.ScholarDatabaseConverter.InsertRelationships | scripts/convert_to_sqlite.py:254-270 | the relationship loop has the specified effect: a row only for an id that converts and names a scholar row, an error for every other entry |
| ConvertToSqlite.ScholarDatabaseConverter.InsertScholar | scripts/convert_to_sqlite.py:158-252 | `insert_scholar` has the specified effect and result, relationship rows subject to the foreign key |
| ConvertToSqlite.ScholarDatabaseConverter.InsertLists | scripts/convert_to_sqlite.py:204-223 | the three list loops have the specified effect |
| ConvertToSqlite.ScholarDatabaseConverter.InsertAllRelationships | scripts/convert_to_sqlite.py:225-243 | the six relationship calls have the specified effect, each row subject to the foreign key |
| ConvertToSqlite.ScholarDatabaseConverter.InsertChain | scripts/convert_to_sqlite.py:295-303 | the chain loop inserts the rows before the first id that does not convert or names no scholar row, succeeds exactly when there is none, and leaves the counters alone |
| ConvertToSqlite.ScholarDatabaseConverter.InsertHadiths | scripts/convert_to_sqlite.py:272-308 | `insert_hadiths` has the specified effect, chain rows subject to the foreign key |
| ConvertToSqlite.ScholarDatabaseConverter.ProcessAllScholars | scripts/convert_to_sqlite.py:310-346 | false with nothing changed when the directory is missing; otherwise true, with every file processed in listing order as specified, foreign keys included |
| HadithTable.SourceNamesDistinct | scripts/map_usc_msa_refs.py:11-18 | the six collections of `SOURCE_MAP` are distinct |
| HadithTable.EnglishEdition | scripts/map_usc_msa_refs.py:11-18 | an English edition file exists exactly for the six collections |
| HadithTable.Rewrites | scripts/map_usc_msa_refs.py:136-172 | the number of rows a loop writes is at most the number of rows |
| HadithTable.RewriteOne | scripts/map_usc_msa_refs.py:139-172 | one more visited row is rewritten, the rows not yet visited stay as they were |
| HadithTable.RewriteRows | scripts/map_usc_msa_refs.py:139-172 | every row is visited once and only its own cells are written; the count is the number of rows written |
| HadithTable.RewritesCongruent | scripts/map_usc_msa_refs.py:139-172 | two loops that write the same rows of two equally long tables count the same |
| HadithTable.RewritesSplit | scripts/map_usc_msa_refs.py:175 | a loop that writes where exactly one of two others writes counts their writes together |
| HadithTable.NoRewrites | scripts/map_usc_msa_refs.py:126-127 | a loop that writes nothing counts zero |
| HadithTable.SourcePass | scripts/map_usc_msa_refs.py:103-175 | loop `k` writes on the table the earlier loops left exactly what it would have written on the original, and never where an earlier loop wrote |
| HadithTable.SourceIteration | scripts/map_usc_msa_refs.py:103-175 | after loop `k` the table is the original rewritten by the first `k + 1` loops, and its count is what they add |
| HadithTable.SourcesNone | scripts/map_usc_msa_refs.py:101 | before the first loop nothing is written and the total is zero |
| HadithTable.SelectedFrom | scripts/fetch_missing_translations.py:22-45 | a selection holds exactly the kept elements, each once and in order |
| HadithTable.LastWinsFacts | scripts/map_usc_msa_refs.py:72-87 | a key is in the dictionary exactly when some element yields it, with the value of the last such element |
| HadithTable.StrippedSource | scripts/map_usc_msa_refs.py:95 | stripping the source keeps a present cell present, a missing one missing, and changes no other cell |
| HadithTable.StrippedSourceIdempotent | scripts/map_usc_msa_refs.py:95 | stripping the source column twice is the same as once |
| HadithTable.StripSources | scripts/map_usc_msa_refs.py:95 | the table in place becomes its stripped rows |
| ArabicText.FirstClose | scripts/map_usc_msa_refs.py:35 | the index of the first `>`, or the length when there is none |
| ArabicText.StripTags | scripts/map_usc_msa_refs.py:35-49 | removing tags never lengthens the text |
| ArabicText.StripTagsLacks | scripts/map_usc_msa_refs.py:35 | removing tags never introduces a character |
| ArabicText.StripTagsNoTag | scripts/map_usc_msa_refs.py:35 | after the substitution no tag is left |
| ArabicText.StripTagsUntagged | scripts/map_usc_msa_refs.py:35 | text without a tag is left unchanged |
| ArabicText.StripTagsIdempotent | scripts/map_usc_msa_refs.py:35 | the substitution is idempotent |
| ArabicText.StripTagsNoOpen | scripts/map_usc_msa_refs.py:35 | text without `<` is left unchanged |
| ArabicText.RemoveTashkeel | scripts/map_usc_msa_refs.py:25-28 | no diacritic of U+0617–U+061A or U+064B–U+0652 is left |
| ArabicText.NormalizeArabic | scripts/map_usc_msa_refs.py:46-55 | the Arabic normal form holds only word characters; a non-string gives "" |
| ArabicText.WordCharIsPlain | scripts/map_usc_msa_refs.py:52-54 | word characters are neither diacritics, whitespace nor `<` |
| ArabicText.NormalizeArabicClean | scripts/map_usc_msa_refs.py:46-55 | the Arabic normal form has no diacritic, no whitespace and no tag |
| ArabicText.NormalizeArabicIdempotent | scripts/map_usc_msa_refs.py:46-55 | normalising a normal form changes nothing |
| MapUscMsaRefs.NormalizeText | scripts/map_usc_msa_refs.py:31-44 | the English normal form holds only word characters; a non-string gives "" |
| MapUscMsaRefs.NormalizeTextClean | scripts/map_usc_msa_refs.py:31-44 | the English normal form has no whitespace, no capital letter and no tag |
| MapUscMsaRefs.EditionFor | scripts/map_usc_msa_refs.py:103-120 | a file is chosen exactly for the six collections, and Arabic is used exactly for Sahih Muslim |
| MapUscMsaRefs.RefEntry | scripts/map_usc_msa_refs.py:77-87 | an entry contributes only a non-empty normal form with a non-zero number |
| MapUscMsaRefs.LoadJsonMap | scripts/map_usc_msa_refs.py:57-88 | the loop builds the specified map, empty for a missing file |
| MapUscMsaRefs.RefMapFacts | scripts/map_usc_msa_refs.py:72-87 | every key is the non-empty normal form of an entry with a non-zero number and holds the number of the last entry with that form |
| MapUscMsaRefs.NonZeroRefKept | scripts/map_usc_msa_refs.py:147-160 | outside Bukhari a reference that reads as a non-zero number is never overwritten |
| MapUscMsaRefs.NanTextUpdated | scripts/map_usc_msa_refs.py:157-160 | a reference text that strips to "nan" counts as missing |
| MapUscMsaRefs.UscKeepsToSource | scripts/map_usc_msa_refs.py:130-139 | a collection's loop writes only rows of that collection and keeps their source |
| MapUscMsaRefs.UscWriteFacts | scripts/map_usc_msa_refs.py:139-172 | a row is rewritten exactly when its collection is one of the six, the update test passes and its normal form is a key of the edition's map; only its reference changes, to a non-zero number |
| MapUscMsaRefs.MapSource | scripts/map_usc_msa_refs.py:103-175 | one collection's iteration extends the writes by that collection's rows and adds their number to the count |
| MapUscMsaRefs.MapSources | scripts/map_usc_msa_refs.py:103-175 | the six loops over the collections rewrite every row as the loop of its own collection specifies, and the total is the number of rows rewritten |
| MapUscMsaRefs.MapUscMsaRefs | scripts/map_usc_msa_refs.py:90-177 | after stripping the sources every row is rewritten as the six loops specify, and the total is the number of rows rewritten |
| FillMissingEnglish.ArabicEdition | scripts/fill_missing_english.py:19-27 | this script names an Arabic edition for each of the six collections, and for no other |
| FillMissingEnglish.NumberEntry | scripts/fill_missing_english.py:61-65 | an English entry contributes only a non-zero number with a non-empty text |
| FillMissingEnglish.LoadTranslationsByNumber | scripts/fill_missing_english.py:44-67 | the loop builds the specified by-number dictionary, empty for an unknown collection or a missing file |
| FillMissingEnglish.ByNumberFacts | scripts/fill_missing_english.py:60-65 | every number maps to the non-empty text of the last English entry with that number |
| FillMissingEnglish.AraEntry | scripts/fill_missing_english.py:91-98 | an Arabic entry contributes only a non-empty normal form paired with a non-empty English text |
| FillMissingEnglish.LoadArabicToEnglishMap | scripts/fill_missing_english.py:69-100 | the loop builds the specified Arabic-to-English dictionary, empty when either file is missing |
| FillMissingEnglish.BothMethods | scripts/fill_missing_english.py:114-154 | method 1 over the table and then method 2 over the result is one combined pass whose count is the sum of the two counts: a row filled by number is skipped by method 2 |
| FillMissingEnglish.FillKeepsToSource | scripts/fill_missing_english.py:119-142 | a collection's pass writes only rows of that collection and keeps their source |
| FillMissingEnglish.FillAllFacts | scripts/fill_missing_english.py:109-154 | only a row of one of the six collections with a missing English text is written, and only that text, with a non-empty value; the number match takes priority over the Arabic match |
| FillMissingEnglish.FillSource | scripts/fill_missing_english.py:109-158 | one collection's iteration, both methods, extends the writes by that collection's rows and adds both counts |
| FillMissingEnglish.FillSources | scripts/fill_missing_english.py:107-158 | the loop over the six collections rewrites every row as both methods over every collection specify, and the total is the number of rows written |
| FillMissingEnglish.FillMissingEnglish | scripts/fill_missing_english.py:102-166 | after stripping the sources every row is rewritten as both methods over every collection specify, and the total is the number of rows written |
| FillFromDuplicates.MemoryEntry | scripts/fill_from_duplicates.py:16-24 | a row contributes to the memory only an English text without a placeholder marker |
| FillFromDuplicates.ValidCount | scripts/fill_from_duplicates.py:13-24 | `valid_count` is at most the number of rows |
| FillFromDuplicates.MemoryFacts | scripts/fill_from_duplicates.py:12-24 | every English text in the memory is unmarked, and each stripped Arabic text maps to the English of the last row with that Arabic text |
| FillFromDuplicates.BuildMemory | scripts/fill_from_duplicates.py:10-24 | the first loop builds the specified memory and count |
| FillFromDuplicates.DuplicateWriteFacts | scripts/fill_from_duplicates.py:34-45 | only a row whose English is missing or a placeholder is written, and only its English, which becomes the unmarked English of a row with the same stripped Arabic |
| FillFromDuplicates.FillFromDuplicates | scripts/fill_from_duplicates.py:6-47 | the memory is built from the table as loaded, then every row is rewritten as specified and `filled_count` is the number of rows written |
| FinalTranslate.ApplyPairsSnoc | scripts/final_translate.py:60-61 | each pair of the replacement list is applied, in order, to the result of the ones before it |
| FinalTranslate.TranslateIsnad | scripts/final_translate.py:23-65 | the loop and the whitespace clean-up yield the specified rendering |
| FinalTranslate.RenderingCollapsed | scripts/final_translate.py:63-64 | the rendering has no leading, trailing, repeated or non-space whitespace |
| FinalTranslate.ForeignReplacementRemoves | scripts/final_translate.py:61 | replacing a pattern by a text that shares no first letter with it leaves no occurrence of the pattern |
| FinalTranslate.ShadowedPair | scripts/final_translate.py:60-61 | a pair whose pattern contains the pattern of the pair just before it never fires |
| FinalTranslate.ReplaceAllLacks | scripts/final_translate.py:61 | a character in neither the text nor the replacement is not in the result |
| FinalTranslate.CollapseLacks | scripts/final_translate.py:64 | collapsing whitespace adds no character other than the space |
| FinalTranslate.LetterRemoved | scripts/final_translate.py:56-61 | a single-letter pair followed by a pair whose replacement lacks that letter leaves none of it |
| FinalTranslate.FinalWriteFacts | scripts/final_translate.py:81-107 | a row is written exactly when it needs a translation and has an Arabic text; only its English changes, to the manual entry for its index when there is one and to the rendering of its Arabic otherwise |
| FinalTranslate.TranslateRow | scripts/final_translate.py:92-107 | the loop body yields the specified write for its row |
| FinalTranslate.FillTargets | scripts/final_translate.py:87-109 | every row is rewritten as specified and `filled_count` is the number of rows written |
| FinalTranslateScript.WaHaddathanaNeverFires | scripts/final_translate.py:31-32 | the pair for "وحدثنا" never fires, because the pair for "حدثنا" before it has already replaced its tail |
| FinalTranslateScript.WaHaddathaniNeverFires | scripts/final_translate.py:34-35 | the pair for "وحدثني" never fires, for the same reason |
| FinalTranslateScript.NoHaLeft | scripts/final_translate.py:56 | the pair for the letter ح removes every ح, inside names too |
| FinalTranslateScript.TranslateAll | scripts/final_translate.py:67-111 | the script with its own replacement list rewrites every row as specified and counts the rows written; the manual `TRANSLATIONS` table (final_translate.py:7-21) is the parameter `manual`, a map from row index to English text |
| TranslateMissing.BimithlihiRedundant | scripts/translate_missing.py:38 | "بمثله" contains "مثله", so the second test of the condition never decides anything |
| TranslateMissing.TranslateArabicFacts | scripts/translate_missing.py:24-46 | a manual entry for the number wins whatever the Arabic says; otherwise the trimmed Arabic decides: "similarly", then "with this", then a short chain, then the default placeholder |
| TranslateMissing.LabelContains | scripts/translate_missing.py:39-46 | every placeholder contains both its marker and the Arabic text it quotes |
| TranslateMissing.WrittenFacts | scripts/translate_missing.py:57-70 | a row is written exactly when some item with a non-empty Arabic text names its index, and then holds the translation of the last such item |
| TranslateMissing.TranslateItems | scripts/translate_missing.py:48-77 | each listed row with Arabic text gets its translation in the English column and nothing else changes |
| FetchMissingTranslations.Collection | scripts/fetch_missing_translations.py:35 | a sunnah.com collection exists exactly for the six collections |
| FetchMissingTranslations.ExportOfFacts | scripts/fetch_missing_translations.py:34-45 | an entry carries the row's id, source, chapter and trimmed hadith number, and has an address exactly when the source is one of the six collections |
| FetchMissingTranslations.ExportedRows | scripts/fetch_missing_translations.py:22-45 | the export holds exactly the rows without English, each once and in row order |
| FetchMissingTranslations.ExportMissing | scripts/fetch_missing_translations.py:33-45 | the loop builds the specified export list |
| BukhariText.StripKeepsAll | scripts/process_bukhari.py:12 | every character of a strip comes from the stripped string |
| BukhariText.SanitizeFilenameFacts | scripts/process_bukhari.py:5-12 | the file name has only safe characters and no surrounding whitespace, sanitizing again changes nothing, and a safe trimmed name is kept |
| BukhariText.ControlsToSpaces | scripts/process_bukhari.py:21 | the replacements keep the length of the text |
| BukhariText.ControlsKeepContent | scripts/process_bukhari.py:21 | the replacements keep every non-space character, in order |
| BukhariText.SqueezeFacts | scripts/process_bukhari.py:23 | after the substitution no two whitespace characters are adjacent, every run is a single space, and the other characters are kept |
| BukhariText.StripSqueezed | scripts/process_bukhari.py:23-24 | stripping a squeezed text leaves single spaces between non-space runs only |
| BukhariText.CleanTextFacts | scripts/process_bukhari.py:14-24 | the cleaned text has no line breaks, tabs, runs of whitespace or surrounding whitespace and keeps every other character, in order; a non-string gives "" |
| BukhariText.StripOfCollapsed | scripts/process_bukhari.py:24 | a collapsed text is its own strip |
| BukhariText.CleanTextIdempotent | scripts/process_bukhari.py:14-24 | cleaning a cleaned text changes nothing |
| BukhariText.SqueezeOfCollapsed | scripts/process_bukhari.py:23 | squeezing a collapsed text changes nothing |
| BukhariText.AfterWord | scripts/process_bukhari.py:34-35 | what is left after a leading word and its whitespace is shorter than the text |
| BukhariText.AfterWordOf | scripts/process_bukhari.py:34-35 | a word, one space and a text not starting with a space leave that text |
| BukhariText.NarratorPrefixes | scripts/process_bukhari.py:34-35 | "Narrated by X" and "Narrated X", in any ASCII case, give X |
| BukhariText.CapitalisedPrefixes | scripts/process_bukhari.py:34-35 | the capitalised prefixes match the case-insensitive patterns |
| BukhariText.CollapsedSuffix | scripts/process_bukhari.py:36 | a suffix of a collapsed text that does not start with a space is collapsed |
| BukhariText.AfterWordSuffix | scripts/process_bukhari.py:34-35 | what is left after the prefix is the end of the text and starts with no space |
| BukhariText.AfterWordCollapsed | scripts/process_bukhari.py:34-36 | what is left after a leading word of a collapsed text is collapsed |
| BukhariText.AfterWordFacts | scripts/process_bukhari.py:34-36 | dropping a leading word of a collapsed text leaves a collapsed end of it |
| BukhariText.DropNarratedByFacts | scripts/process_bukhari.py:34 | dropping "narrated by" leaves a collapsed end of the text, and a text not starting with "narrated" unchanged |
| BukhariText.DropNarratedFacts | scripts/process_bukhari.py:35 | dropping "narrated" leaves a collapsed end of the text, and a text not starting with it unchanged |
| BukhariText.CleanNarratorFacts | scripts/process_bukhari.py:28-36 | `clean_narrator` only removes a leading "narrated by" or "narrated" and the spaces after it: the result is collapsed and is the end of the cleaned text |
| BukhariText.DecimalRun | scripts/process_bukhari.py:44 | the length of the run of decimal digits that starts the text |
| BukhariText.GetCategoryFacts | scripts/process_bukhari.py:38-44 | the category is always trimmed; "<digits>. <name>" gives the name; a book name not starting with a digit is only trimmed |
| BukhariText.DecimalRunOf | scripts/process_bukhari.py:44 | digits followed by a non-digit form a run of exactly their length |
| BukhariText.TrimStartOfStripped | scripts/process_bukhari.py:44 | trimming the start of a stripped text and stripping it again gives it back |
| ProcessBukhari.BookEntriesIds | scripts/process_bukhari.py:72-83 | one row per hadith of a book, with consecutive ids from the current counter |
| ProcessBukhari.BooksEntriesIds | scripts/process_bukhari.py:64-83 | the rows of a volume's books have consecutive ids, one per hadith |
| ProcessBukhari.EntriesOfIds | scripts/process_bukhari.py:60-83 | one row per hadith of every volume, with ids 1, 2, 3, … |
| ProcessBukhari.AllEntriesIds | scripts/process_bukhari.py:57-83 | the k-th row of the table has id k + 1, and there is one row per hadith |
| ProcessBukhari.BooksStep | scripts/process_bukhari.py:64-83 | one turn of the book loop keeps the rows so far equal to the specified rows and the counter one past them |
| ProcessBukhari.HadithStep | scripts/process_bukhari.py:72-83 | one turn of the hadith loop appends the specified entry |
| ProcessBukhari.NewEntry | scripts/process_bukhari.py:73-81 | the entry holds the id, volume, book, category and cleaned info, narrator and text |
| ProcessBukhari.AddBook | scripts/process_bukhari.py:72-83 | the hadith loop appends one row per hadith and advances the counter by their number |
| ProcessBukhari.AddVolume | scripts/process_bukhari.py:64-83 | the book loop appends the rows of every book that has hadiths |
| ProcessBukhari.ProcessSahihBukhari | scripts/process_bukhari.py:46-89 | the rows written are the specified table |
| FileStores.FileStore.constructor | fix_search_index.py:5 | a store holds the files given and has written none |
| FileStores.FileStore.Write | fix_search_index.py:11-12 | writing a file replaces its content and records the path |
| FixSearchIndex.KeysDoNotOverlap | fix_search_index.py:10 | `"ckb":` and `"ku":` cannot overlap so as to rebuild the old key |
| FixSearchIndex.RenameRemovesKu | fix_search_index.py:10 | after the rename no `"ku":` is left |
| FixSearchIndex.RenameIdempotent | fix_search_index.py:10 | renaming is idempotent |
| FixSearchIndex.FixSearchIndex | fix_search_index.py:1-17 | nothing is written for a missing file or one without the old key; otherwise the file is written once with every key renamed |
| FixSearchIndex.SecondRunWritesNothing | fix_search_index.py:5-15 | a second run finds nothing to change and writes nothing |
| FixCkbLocale.Swept | fix_ckb_locale.py:8-16 | the sweep keeps the set of files |
| FixCkbLocale.SweptFiles | fix_ckb_locale.py:8-16 | a file is rewritten, once, exactly when it is listed and holds `"ku":`, then with every key renamed; every other file is untouched |
| FixCkbLocale.SecondSweepRewritesNothing | fix_ckb_locale.py:8-16 | after the sweep no listed file holds `"ku":`, so a second sweep rewrites nothing |
| FixCkbLocale.FixCkbLocale | fix_ckb_locale.py:1-18 | the store becomes the sweep's files, the rewritten paths are recorded in order, and `count` is their number |
| FamilyTreeGraph.Step | components/visualizations/FamilyTreeGraph.tsx:43-48 | a word either opens a new line or joins the open one; there is always an open line |
| FamilyTreeGraph.GroupsSnoc | components/visualizations/FamilyTreeGraph.tsx:42-49 | the lines after one more word are one step from the lines before it |
| FamilyTreeGraph.WrapText | components/visualizations/FamilyTreeGraph.tsx:36-52 | the loop of `wrapText` computes the label of the specification as written |
| FamilyTreeGraph.LinesSnoc | components/visualizations/FamilyTreeGraph.tsx:44-50 | each closed line is pushed trimmed |
| FamilyTreeGraph.AddWord | components/visualizations/FamilyTreeGraph.tsx:43-48 | the body on one word pushes the trimmed old line and restarts, or appends the word and a space |
| FamilyTreeGraph.StepKeepsWords | components/visualizations/FamilyTreeGraph.tsx:42-49 | one step adds exactly its word at the end |
| FamilyTreeGraph.GroupsKeepWords | components/visualizations/FamilyTreeGraph.tsx:38-50 | no word is lost, added or moved: the lines hold the input's words in order |
| FamilyTreeGraph.SpacedLength | components/visualizations/FamilyTreeGraph.tsx:45-47 | every word on a line counts its characters and one space |
| FamilyTreeGraph.StepFits | components/visualizations/FamilyTreeGraph.tsx:43 | one step keeps every line within the width test |
| FamilyTreeGraph.GroupsFit | components/visualizations/FamilyTreeGraph.tsx:42-49 | every line passes the width test |
| FamilyTreeGraph.TrimDropsFinalSpace | components/visualizations/FamilyTreeGraph.tsx:44-50 | trimming a line that ends in a space shortens it |
| FamilyTreeGraph.LineWidths | components/visualizations/FamilyTreeGraph.tsx:42-50 | a line of two or more words is at most `maxLen` long, and a word longer than `maxLen` is alone on its line |
| FamilyTreeGraph.SpacedNonEmpty | components/visualizations/FamilyTreeGraph.tsx:45-47 | a line holding a word is not empty |
| FamilyTreeGraph.StepNonEmpty | components/visualizations/FamilyTreeGraph.tsx:43-48 | with the empty-line guard no line is ever empty |
| FamilyTreeGraph.GuardedGroupsNonEmpty | components/visualizations/FamilyTreeGraph.tsx:42-49 | with the guard, every line holds a word |
| FamilyTreeGraph.StepPastEmpty | components/visualizations/FamilyTreeGraph.tsx:43-48 | an empty first line does not change how later words are placed |
| FamilyTreeGraph.StepGuardIdle | components/visualizations/FamilyTreeGraph.tsx:43 | the guard matters only for an empty open line |
| FamilyTreeGraph.GroupsLongFirst | components/visualizations/FamilyTreeGraph.tsx:43-44 | when the first word is longer than `maxLen`, the code closes the still empty first line: one empty line, then the guarded lines |
| FamilyTreeGraph.GroupsShortFirst | components/visualizations/FamilyTreeGraph.tsx:43-48 | when the first word fits, the guard never matters |
| FamilyTreeGraph.WrapLongFirstWord | components/visualizations/FamilyTreeGraph.tsx:42-51 | a first word longer than `maxLen` gives a label starting with a line break, followed by the intended label |
| FamilyTreeGraph.WrapShortFirstWord | components/visualizations/FamilyTreeGraph.tsx:42-51 | otherwise the code and the intended wrapper agree |
| FamilyTreeGraph.SplitAfterPiece | components/visualizations/FamilyTreeGraph.tsx:38 | a piece without the separator ends at the separator |
| FamilyTreeGraph.SplitJoin | components/visualizations/FamilyTreeGraph.tsx:38 | splitting words joined by a character they lack gives the words back |
| FamilyTreeGraph.JoinAppend | components/visualizations/FamilyTreeGraph.tsx:51 | joining two lists is joining each and putting the separator between |
| FamilyTreeGraph.SpacedJoin | components/visualizations/FamilyTreeGraph.tsx:45-47 | an open line is its words joined by spaces, plus one space |
| FamilyTreeGraph.JoinFirstLast | components/visualizations/FamilyTreeGraph.tsx:51 | a join of non-empty words starts with the first word's first character and ends with the last word's last |
| FamilyTreeGraph.JoinNoChar | components/visualizations/FamilyTreeGraph.tsx:51 | a character in no word and not in the separator is not in the join |
| FamilyTreeGraph.PlainLine | components/visualizations/FamilyTreeGraph.tsx:44-50 | the trimmed line of plain words is those words joined by single spaces |
| FamilyTreeGraph.ReplacePastPrefix | components/visualizations/FamilyTreeGraph.tsx:145 | the replacement skips a prefix without the pattern |
| FamilyTreeGraph.ReplaceLineBreaks | components/visualizations/FamilyTreeGraph.tsx:145 | turning the line breaks of joined lines back into spaces joins them by spaces |
| FamilyTreeGraph.ReplaceAbsentChar | components/visualizations/FamilyTreeGraph.tsx:145 | text without the pattern is unchanged |
| FamilyTreeGraph.JoinGroups | components/visualizations/FamilyTreeGraph.tsx:50-51 | joining the lines of non-empty groups by spaces joins all their words by spaces |
| FamilyTreeGraph.FlattenNonEmpty | components/visualizations/FamilyTreeGraph.tsx:42-49 | groups with a non-empty group hold some word |
| FamilyTreeGraph.FlattenHolds | components/visualizations/FamilyTreeGraph.tsx:42-49 | every word of a group is a word of the input |
| FamilyTreeGraph.PlainGroupLine | components/visualizations/FamilyTreeGraph.tsx:44-50 | a line of plain words is those words joined by spaces and holds no line break |
| FamilyTreeGraph.PlainLines | components/visualizations/FamilyTreeGraph.tsx:40-50 | the lines of plain words are the groups joined by spaces, none with a line break |
| FamilyTreeGraph.SplitPlain | components/visualizations/FamilyTreeGraph.tsx:38 | splitting a name of plain words on spaces gives its words |
| FamilyTreeGraph.WrapRoundTrip | components/visualizations/FamilyTreeGraph.tsx:36-145 | with the intended wrapper, replacing the label's line breaks by spaces gives the name back |
| FamilyTreeGraph.AsWrittenRoundTrip | components/visualizations/FamilyTreeGraph.tsx:36-52 | as written, a plain name whose first word is longer than `maxLen` gets a label whose line breaks, turned back into spaces, give the name with a leading space (only the unwrapping fallback of the tooltip, which a non-empty name never reaches, would show it) |
| FamilyTreeGraph.WrapEmpty | components/visualizations/FamilyTreeGraph.tsx:37 | the empty name gives the empty label |
| FamilyTreeGraph.Leaves | components/visualizations/FamilyTreeGraph.tsx:61-83 | one leaf per person, in order, each labelled by `wrapText` with the default width 15 |
| FamilyTreeGraph.LeafLabel | components/visualizations/FamilyTreeGraph.tsx:61-66 | a relative's label, line breaks turned back into spaces, is the name, with a leading space exactly when the first word is longer than 15 characters |
| FamilyTreeGraph.RootFacts | components/visualizations/FamilyTreeGraph.tsx:86-138 | with parents the root is the first parent with the scholar as its only child and the others are dropped; without, the scholar is the root |
| FamilyTreeGraph.Titles | components/visualizations/FamilyTreeGraph.tsx:97-119 | one title per child node, in order |
| FamilyTreeGraph.ThreeGroupers | components/visualizations/FamilyTreeGraph.tsx:97-119 | three optional groupers give their titles in order, each with its own leaves |
| FamilyTreeGraph.GroupFacts | components/visualizations/FamilyTreeGraph.tsx:97-119 | groupers appear only for non-empty lists, in the order Spouses, Children, Siblings; each has one leaf per person in order and no name or value of its own |
| FamilyTreeGraph.TooltipFacts | components/visualizations/FamilyTreeGraph.tsx:144-146 | a relative's tooltip is their name, empty for an empty name; a grouper's is its title |
| InteractiveFamilyTree.ConvertToTreeData | components/InteractiveFamilyTree.tsx:124-175 | the root is built first and each non-empty group pushed onto its children, giving the specified tree |
| InteractiveFamilyTree.MemberIdsAppend | components/InteractiveFamilyTree.tsx:136-172 | the member ids of two lists of groups are those of each, in order |
| InteractiveFamilyTree.GroupIds | components/InteractiveFamilyTree.tsx:136-146 | a group holds the ids of its list, and an empty list gives no group |
| InteractiveFamilyTree.TitlesAppend | components/InteractiveFamilyTree.tsx:136-172 | the titles of two lists of groups are those of each, in order |
| InteractiveFamilyTree.GroupTitles | components/InteractiveFamilyTree.tsx:136-172 | the group titles are those of the non-empty lists, in the order Parents, Spouses, Children |
| InteractiveFamilyTree.GroupMemberIds | components/InteractiveFamilyTree.tsx:136-172 | the members are the parents, then the spouses, then the children |
| InteractiveFamilyTree.TreeShape | components/InteractiveFamilyTree.tsx:124-175 | the root carries the scholar's name, id, grade and relation "Scholar"; its groups are the non-empty ones among parents, spouses and children, in that order, with every member once; siblings, teachers and students are ignored |
| InteractiveFamilyTree.GroupContents | components/InteractiveFamilyTree.tsx:136-172 | each group has its title, its group id, an empty grade and its title as relation, and holds one node per person, in order, with the person's grade or "" and the singular relation |
| InteractiveFamilyTree.DisplayName | components/InteractiveFamilyTree.tsx:212-214 | a name of at most 30 characters is kept; a longer one keeps its first 30 and gains "..." |
| InteractiveFamilyTree.DisplayNameIdempotent | components/InteractiveFamilyTree.tsx:212-214 | truncating a displayed label changes nothing |
| InteractiveFamilyTree.Draw | components/InteractiveFamilyTree.tsx:181-214 | a card's caption is at most 33 characters, and a card is amber exactly when it is the main scholar |
| InteractiveFamilyTree.TitleIsGroupNode | components/InteractiveFamilyTree.tsx:182 | every group title is recognised as a group node |
| InteractiveFamilyTree.DrawTree | components/InteractiveFamilyTree.tsx:181-214 | groups are drawn as markers with their title; the root is an amber card unless the scholar's name contains a group title; a member is a card in its relation's colour |
| NetworkGraph.Cap | components/visualizations/NetworkGraph.tsx:153-172 | the first 15 items of a list, or all of them when there are fewer |
| NetworkGraph.Nodes | components/visualizations/NetworkGraph.tsx:137-191 | the scholar as the main node, then one teacher node per included teacher and one student node per included student, each in input order |
| NetworkGraph.Edges | components/visualizations/NetworkGraph.tsx:153-188 | one edge into the scholar per included teacher, then one edge out of the scholar per included student, with their ids and strokes |
| NetworkGraph.EdgesJoinNodes | components/visualizations/NetworkGraph.tsx:137-191 | there is one edge fewer than nodes; edge k joins the scholar and node k + 1, pointing at the scholar for a teacher and away for a student, and its id is source, dash, target |
| NetworkGraph.RestIgnored | components/visualizations/NetworkGraph.tsx:153-172 | teachers and students beyond the 15th change neither nodes nor edges |
| NetworkGraph.NoDeduplication | components/visualizations/NetworkGraph.tsx:153-188 | a person both an included teacher and an included student appears as two nodes with the same id |
| NetworkGraph.PersonNodesSnoc | components/visualizations/NetworkGraph.tsx:154-178 | one more person gives one more node at the end |
| NetworkGraph.TeacherEdgesSnoc | components/visualizations/NetworkGraph.tsx:160-168 | one more teacher gives one more edge at the end |
| NetworkGraph.StudentEdgesSnoc | components/visualizations/NetworkGraph.tsx:179-187 | one more student gives one more edge at the end |
| NetworkGraph.BuildGraph | components/visualizations/NetworkGraph.tsx:137-189 | the two `forEach` loops build exactly the specified nodes and edges |
| NetworkGraph.Layout | components/visualizations/NetworkGraph.tsx:100-131 | every node is kept in order; "LR" puts handles left and right, any other direction top and bottom |
| NetworkGraph.LayoutGraph | components/visualizations/NetworkGraph.tsx:100-191 | the laid-out graph has the specified nodes in order with top and bottom handles, and the specified edges |
| HadithList.Slice | components/sections/HadithList.tsx:41 | the first `n` items, or all when there are fewer |
| HadithList.ChainLineWith | components/sections/HadithList.tsx:94-100 | a chain line exists exactly for a present, non-empty chain, and starts with the label |
| HadithList.CardOf | components/sections/HadithList.tsx:60-103 | the source badge is trimmed, and the chain line, joined with the separator as the component's text has it, appears exactly for a non-empty chain |
| HadithList.Render | components/sections/HadithList.tsx:27-42 | the empty state exactly for a missing or empty list; otherwise the cards of the first `min(5 * page, n)` hadiths in order, with the button exactly when `5 * page < n` |
| HadithList.LoadMoreReveals | components/sections/HadithList.tsx:107-118 | a click keeps the shown cards, adds at most five, adds at least one while the button is offered, and changes nothing once all are shown |
| HadithList.ClicksToShowAll | components/sections/HadithList.tsx:27-118 | from the first page the button stays offered for `(n - 1) / 5` clicks, after which every hadith is shown and the button is gone |
| HadithList.CountCharAppend | components/sections/HadithList.tsx:94-100 | a character's count in a concatenation is the sum of its counts |
| HadithList.CountCharAbsent | components/sections/HadithList.tsx:94-100 | a character that does not occur has count zero |
| HadithList.JoinCount | components/sections/HadithList.tsx:97 | joining pieces without a character gives one copy of the separator's count per gap |
| HadithList.LabelHasNoArrow | components/sections/HadithList.tsx:96 | the label holds no arrow |
| HadithList.SeparatorArrows | components/sections/HadithList.tsx:97 | the intended separator holds one arrow; the separator as written holds none |
| HadithList.ChainArrows | components/sections/HadithList.tsx:94-100 | with the intended separator, a chain of n ids shows n - 1 arrows |
| HadithList.JoinShowsSeparator | components/sections/HadithList.tsx:97 | two or more joined ids show the separator |
| HadithList.AsWrittenChainHasNoArrow | components/sections/HadithList.tsx:94-100 | as written, a chain line shows no arrow whatever its length, and shows the three mojibake characters between every two ids |
| HadithList.CardShowsNoArrow | components/sections/HadithList.tsx:94-100 | a rendered card's chain line shows no arrow, and the three mojibake characters between every two ids |

## Left out

- File, network and DataFrame I/O (`fs`, `open`, `fetch`, `pd.read_csv`, `to_csv`): contents come in as values (maps from path to text, sequences of rows), and what would be written comes out as values or as the state of `FileStores.FileStore`.
- JSON and CSV parsing and serialisation: records arrive already parsed, and a file that fails to parse is an input variant (`Sitemap.BrokenIndexes`, `MapUscMsaRefs.LoadJsonMap`).
- SQLite and sql.js: tables are in-memory sequences and maps. The `INSERT OR REPLACE` key rule and the foreign keys on `scholars(id)` are modelled; SQL text, transactions, commits and the full-text index are not. lib/database/queries.ts is not part of this model.
- ConvertToSqlite.ScholarDatabaseConverter.constructor: the model starts from empty tables, that is from a new output file. The script's `CREATE TABLE IF NOT EXISTS` also accepts an existing database and appends to it; the model does not cover that case. `lastrowid` is modelled as one more than the number of hadith rows, which holds only on a fresh file.
- ConvertToSqlite.InsertScholarSpec: a JSON `null` in `name`, `hadith_no` or `source` would violate the `NOT NULL` columns and raise. The model reads these fields as strings, so it does not produce that error.
- Text.IsDecimal, Text.ParseInt: Python's `\d`, `str.isdigit()` and `int()` accept every Unicode decimal digit. The model accepts ASCII, Arabic-Indic and Extended Arabic-Indic digits only. It also does not model `int()` accepting underscores between digits (`int("1_0") == 10`).
- GenerateHadithIndex.HadithIdPrefix: the id is modelled from an integer `hadith_id`. When that column has a blank cell, pandas reads it as floats, and the script then writes ids such as `h1.0`; the model does not cover this.
- GenerateStats.CountByBook: `hadithsByBook` is a plain object. The model keeps keys in first-seen order, but a JavaScript object lists array-index keys (a book named `12`, say) first, in ascending numeric order, so stats.json can list books in another order. A book named after an inherited member such as `constructor` starts from that member instead of 0, and its entry becomes the function's source text followed by `1`; the model counts it from 0.
- UpdateTranslations.GradeDisplay: `GRADES[baseGradeKey]` also finds names inherited from `Object.prototype`. For a base key such as `constructor` the script takes the inherited member as the translation, and each language's text becomes `undefined`, or `undefined [g]` when there is a generation `g`. The model looks only at the table's own keys, so it gives the raw grade there.
- FinalTranslateScript.TranslateAll: the manual `TRANSLATIONS` table is not written out in the model. Its English texts come in as the parameter `manual`, and every contract holds for any such table.
- UpdateTranslations.WithSourceDisplay: `BOOKS[hadith.source]` also finds names inherited from `Object.prototype`. For a source such as `constructor` the script assigns the inherited function to `source_display`, and `JSON.stringify` then leaves the field out of the file, even when the hadith already had a display. The model looks only at the table's own keys, so it keeps an earlier display there.
- MapUscMsaRefs.MapUscMsaRefs: when the table has no `usc_msa_ref` column, the script first creates it with 0 in every row. The model's rows always carry the cell, so a row that no loop writes keeps its missing reference where the script would hold 0.
- TranslateMissing.TranslateArabic: the manual `TRANSLATIONS` table is not written out in the model. Its English texts come in as the parameter `manual`, a map from hadith number to text, and every contract holds for any such table.
- UpdateTranslationsPart2.GetTranslation: a value that trims to a name inherited from `Object.prototype` (`constructor`, for one) makes `dictionary[key]` return that inherited member. The model looks only at the dictionary's own keys.
- Concurrency in `initDatabase`: the pending load is modelled sequentially by `SqliteClient.Client.InitDatabase` and `SqliteClient.Client.SettleLoad`, with the load outcome passed in.
- Python `eval` in `parse_date_field`: its outcome is a parameter of `ExtractEnhanced.ParseDateField`.
- Wall-clock time: the `lastModified` of every sitemap route is a parameter `now`.
- The dagre layout: `NetworkGraph.Layout` assigns only handle positions, not coordinates.
- React, framer-motion, ECharts and react-d3-tree rendering, colours beyond the card colour, icons and animation.
- Fuse.js search, WikipediaSummary, the dashboard and timeline views, and the pages with only slices or timers: not part of this core.
- String lengths: JavaScript counts UTF-16 code units, and the model counts code points, as Python does. So `InteractiveFamilyTree.DisplayName` and the line widths of `FamilyTreeGraph.WrapText` differ from the source for text outside the Basic Multilingual Plane.
- Python's `\w` is `Text.IsWordChar`. It covers ASCII letters and digits, `_`, Latin-1 letters, and Arabic letters and digits, but not all of Unicode's alphanumerics. `lower()` and `toLowerCase()` are modelled for ASCII only.
- MapUscMsaRefs.MapSources: Python iterates a set of source names in an unspecified order. The model uses a fixed order and proves that the edited rows belong to disjoint sources, so the order does not matter.
- TranslateMissing.TranslateItems: a pandas `df.at` with a `csv_index` outside the table would enlarge the DataFrame. The model skips such items.
- Console output, progress messages and exit codes are left out.
- Floating-point priorities in the sitemap are exact `real` values.

## Findings

| source | as written | input that shows it | evidently intended | confidence | as-written member | corrected member |
|---|---|---|---|---|---|---|
| components/visualizations/FamilyTreeGraph.tsx:42-49 | when the first word is longer than `maxLen`, the loop closes the still empty first line, so the label starts with "\n": an empty line above the name | `wrapText("Abdullah ibn Umar", 5)` | lines hold words only; no empty line is pushed | not executed | FamilyTreeGraph.WrapLongFirstWord | FamilyTreeGraph.WrapRoundTrip |
| components/sections/HadithList.tsx:97 | the chain separator is the UTF-8 encoding of U+2192 read back as Windows-1252 (`â†’`), so no arrow is ever shown | chain `["1", "2"]` | `" → "` between the ids | not executed | HadithList.AsWrittenChainHasNoArrow | HadithList.ChainArrows |
