# IK Analyzer dictionary manager — a Dafny model

This project models the bookkeeping of IK Analyzer's dictionary manager, the class
`org.wltea.analyzer.dic.Dictionary`. The model covers:

- the lazily created singleton (`initial`, `getSingleton`);
- the static main and stop-word lexicons, which are created once and reloaded from
  extension files;
- the per-source freshness check, done against the `dicLastModified` timestamp map;
- the sets of raw lines already ingested (`dicExtSet`, `dicStopSet`) and the report
  of newly added lines that a reload prints;
- the per-instance quantifier lexicon;
- the run-time `addWords` / `disableWords` edits and the `isStopWord` query.

The character trie (`DictSegment`) is not part of the model. It is replaced by an
abstract lexicon: a map from an entry to "enabled" (`Lexicons.Lexicon`). Filling an
entry adds it, and disabling an entry keeps it but switches it off.

Files:

- `wrappers.dfy`: `Option` and `Result`.
- `text.dfy`: Java's `String.trim()` (every character `<= ' '` is whitespace) and
  `toLowerCase()` restricted to ASCII. Together they form `Normalize`, which turns a
  raw line into the entry that gets filled.
- `lexicon.dfy`: the abstract lexicon.
- `loading.dfy`: the load pipeline as pure functions over `Statics`, a value that
  holds every static field of the class. It covers:
  - one `readLine` loop (`Ingest`);
  - one source with its freshness skip and timestamp record (`LoadFile`);
  - `loadMainDict`, `loadStopWordDict` and `loadQuantifierDict`;
  - one scheduled reload cycle;
  - the constructor;
  - the effect of `addWords` / `disableWords`;
  - the stop-word loop as written (see Findings).
- `dictionary.dfy`: the class itself, imperative and proved against `loading.dfy`.
  - `Dic.Dictionary` holds the static fields and the singleton slot.
  - `Dic.DictionaryInstance` is the singleton object, which owns the quantifier lexicon.

The environment is a parameter of type `Classpath`: a map from a resource name to its
resolved path, its last-modified stamp and, when it can be opened, its content. The
content is the sequence of lines plus, optionally, the index of the `readLine()` call
that throws `IOException`.

The built-in main source is opened through the class loader and never through a
file. Its path therefore stays `null` (the key `None`), and its stamp is that of
`new File("")`, modelled as 0. An unknown name passed to `getFilePath` dereferences
a null `URL`. The resulting `NullPointerException` is the error
`ResourceNotFound(name)`, and it ends the enclosing `loadMainDict` /
`loadStopWordDict` while keeping every source loaded before it. A missing quantifier
source is the error `QuantifierDictionaryNotFound`. An uninitialised `getSingleton`
is the error `UninitializedState`.

## Model

| member | source | states |
|---|---|---|
| Text.Trim | src/main/java/org/wltea/analyzer/dic/Dictionary.java:335 | definition of `String.trim()`: the leading and trailing characters `<= ' '` removed; its properties are stated by `Text.BlankIffAllTrimmable` and `Text.NormalizeIdempotent` |
| Text.Normalize | src/main/java/org/wltea/analyzer/dic/Dictionary.java:342 | definition of the stored form `trim().toLowerCase()` of a line or word; its properties are stated by `Text.NormalizeEmptyIffBlank` and `Text.NormalizeIdempotent` |
| Text.IsBlank | src/main/java/org/wltea/analyzer/dic/Dictionary.java:335 | definition of the blank-line test `"".equals(theWord.trim())`; characterised by `Text.BlankIffAllTrimmable` |
| Text.BlankIffAllTrimmable | src/main/java/org/wltea/analyzer/dic/Dictionary.java:335 | a line is skipped as blank (`"".equals(theWord.trim())`) exactly when every character is `<= ' '` |
| Text.NormalizeEmptyIffBlank | src/main/java/org/wltea/analyzer/dic/Dictionary.java:335-342 | the trimmed, lower-cased entry is empty exactly when the line is blank, so only non-blank lines yield entries |
| Text.NormalizeIdempotent | src/main/java/org/wltea/analyzer/dic/Dictionary.java:342 | trimming and lower-casing an already normalised word changes nothing |
| Lexicons.Lexicon.Fill | src/main/java/org/wltea/analyzer/dic/Dictionary.java:342 | filling adds exactly the word's key, and afterwards the lexicon contains exactly what it contained before plus the (non-empty) word |
| Lexicons.Lexicon.Disable | src/main/java/org/wltea/analyzer/dic/Dictionary.java:206 | disabling keeps every key and afterwards the lexicon contains exactly what it contained before except the word |
| Lexicons.FillIdempotent | src/main/java/org/wltea/analyzer/dic/Dictionary.java:190 | filling the same word twice is the same as filling it once |
| Lexicons.RefillReinstates | src/main/java/org/wltea/analyzer/dic/Dictionary.java:190-206 | a disabled word that is filled again is contained again, and the lexicon is as if it had only been filled |
| Loading.Readable | src/main/java/org/wltea/analyzer/dic/Dictionary.java:333-348 | the lines a loader sees are a prefix of the source: all of it when no `readLine()` throws, exactly the lines before the failing call otherwise |
| Loading.OpenBuiltIn | src/main/java/org/wltea/analyzer/dic/Dictionary.java:306-307 | a built-in source never fails to resolve; when it opens, its path key is null and its stamp 0 |
| Loading.OpenFile | src/main/java/org/wltea/analyzer/dic/Dictionary.java:309-316 | a file name fails to resolve exactly when the class loader does not know it; when opened, it is keyed by its resolved path with that file's stamp |
| Loading.ReadLine | src/main/java/org/wltea/analyzer/dic/Dictionary.java:334 | definition of the outcome of the i-th `readLine()` call (also 456, 502): a line, `null` at the end, or `IOException` |
| Loading.Names | src/main/java/org/wltea/analyzer/dic/Dictionary.java:286 | definition of a configured file list, where a `null` list (also 425) and an empty one are both visited as nothing |
| Loading.FillLines | src/main/java/org/wltea/analyzer/dic/Dictionary.java:501-506 | definition of a loop that fills every non-blank line's normalised form; its effect is stated by `Loading.FillLinesEffect` |
| Loading.IngestLine | src/main/java/org/wltea/analyzer/dic/Dictionary.java:335-342 | definition of one non-null line of the main loop (the stop-word loop at 457-466 does the same steps): blank lines skipped, the raw line added to the ingested set and, if new and `hasAdd`, to the report, and its normalised form filled |
| Loading.Ingest | src/main/java/org/wltea/analyzer/dic/Dictionary.java:333-344 | definition of the whole read loop (also 455-468) as `IngestLine` over the readable lines; its effect is stated by `Loading.IngestLexicon`, `Loading.IngestSeen` and `Loading.IngestReport` |
| Loading.FillLinesEffect | src/main/java/org/wltea/analyzer/dic/Dictionary.java:333-344 | filling from lines adds exactly the entries of the non-blank lines, and the lexicon afterwards contains exactly its old words plus those entries |
| Loading.IngestLexicon | src/main/java/org/wltea/analyzer/dic/Dictionary.java:335-342 | the lexicon gains every non-blank line's entry whether or not the raw line was already ingested |
| Loading.IngestSeen | src/main/java/org/wltea/analyzer/dic/Dictionary.java:336-337 | the ingested set grows by exactly the raw non-blank lines |
| Loading.IngestReport | src/main/java/org/wltea/analyzer/dic/Dictionary.java:336-341 | the report grows by exactly the raw lines that were not yet ingested, each once, and only when `hasAdd` |
| Loading.Unmodified | src/main/java/org/wltea/analyzer/dic/Dictionary.java:322 | definition of the freshness skip (also 444): `hasAdd`, the path already recorded, and the stamp not newer than the recorded one |
| Loading.LoadFile | src/main/java/org/wltea/analyzer/dic/Dictionary.java:317-356 | an unopened source, or one whose stamp is not newer than the recorded one once `hasAdd` holds, changes nothing; a read source has its stamp recorded; the other lexicon is untouched |
| Loading.PartialReadKept | src/main/java/org/wltea/analyzer/dic/Dictionary.java:333-350 | after a read that stops on an I/O error the stamp is still recorded and the entries and raw lines read before the error are kept, and no others |
| Loading.LoadFileReport | src/main/java/org/wltea/analyzer/dic/Dictionary.java:336-341 | the report of one source lists without repetition exactly the raw lines newly ingested, and is empty before `hasAdd` |
| Loading.LoadFileConsistent | src/main/java/org/wltea/analyzer/dic/Dictionary.java:335-342 | every ingested raw line keeps its normalised entry in the lexicon |
| Loading.LoadFileTwiceIsNoop | src/main/java/org/wltea/analyzer/dic/Dictionary.java:322-324 | once `hasAdd` holds, loading the same source again changes nothing and reports nothing |
| Loading.FirstUnresolved | src/main/java/org/wltea/analyzer/dic/Dictionary.java:365-371 | definition of the name whose `getFilePath` throws: the first one the class loader does not know |
| Loading.LoadFiles | src/main/java/org/wltea/analyzer/dic/Dictionary.java:285-290 | visiting a list of sources keeps the other lexicon and `hasAdd`, and fails exactly with the first name the class loader does not know |
| Loading.LoadFilesGrows | src/main/java/org/wltea/analyzer/dic/Dictionary.java:285-290 | visiting sources never removes a word from the lexicon |
| Loading.LoadFilesEntries | src/main/java/org/wltea/analyzer/dic/Dictionary.java:285-290 | on the first load, each file of a list that the loop reaches and can open has every entry of its readable lines in the lexicon afterwards |
| Loading.LoadFilesConsistent | src/main/java/org/wltea/analyzer/dic/Dictionary.java:285-290 | visiting sources keeps every ingested raw line stored in its lexicon |
| Loading.UpToDateLoadIsNoop | src/main/java/org/wltea/analyzer/dic/Dictionary.java:322-324 | once `hasAdd` holds, visiting sources whose recorded stamps are current changes nothing |
| Loading.LoadFilesLeavesUpToDate | src/main/java/org/wltea/analyzer/dic/Dictionary.java:350 | after a visit every source reached has its current stamp recorded |
| Loading.LoadFilesKeepsUpToDate | src/main/java/org/wltea/analyzer/dic/Dictionary.java:350 | a visit never makes a recorded stamp stale |
| Loading.LoadFilesKeepsAllUpToDate | src/main/java/org/wltea/analyzer/dic/Dictionary.java:350 | a visit never makes the recorded stamps of a list of sources stale |
| Loading.LoadMainDict | src/main/java/org/wltea/analyzer/dic/Dictionary.java:274-291 | afterwards the main lexicon exists |
| Loading.BuiltInLoadedOnce | src/main/java/org/wltea/analyzer/dic/Dictionary.java:276-290 | after the first `loadMainDict` every later call only visits the extension files |
| Loading.BuiltInEntriesLoaded | src/main/java/org/wltea/analyzer/dic/Dictionary.java:276-282 | on the first load of an enabled dictionary every entry read from the built-in source is in the main lexicon |
| Loading.DisabledSkipsBuiltIn | src/main/java/org/wltea/analyzer/dic/Dictionary.java:276-290 | with `isDicDisable()`, the first `loadMainDict` creates an empty main lexicon and reads only the extension files |
| Loading.ExtensionEntriesLoaded | src/main/java/org/wltea/analyzer/dic/Dictionary.java:285-290 | on the first `loadMainDict`, every extension file the loop reaches and can open puts each entry of its readable lines into the main lexicon |
| Loading.LoadStopWordDict | src/main/java/org/wltea/analyzer/dic/Dictionary.java:418-425 | afterwards the stop-word lexicon exists |
| Loading.StopWordEntriesLoaded | src/main/java/org/wltea/analyzer/dic/Dictionary.java:425-474 | on the first `loadStopWordDict`, every stop-word file the loop reaches and can open, read as intended, puts each entry of its readable lines into the stop-word lexicon |
| Loading.Reload | src/main/java/org/wltea/analyzer/dic/Dictionary.java:148-155 | definition of one scheduled run: `loadMainDict`, then `loadStopWordDict` unless the first threw; its property is stated by `Loading.ReloadTwiceIsNoop` |
| Loading.ReloadTwiceIsNoop | src/main/java/org/wltea/analyzer/dic/Dictionary.java:148-155 | a second scheduled cycle over unchanged sources changes nothing |
| Loading.LoadQuantifier | src/main/java/org/wltea/analyzer/dic/Dictionary.java:487-494 | loading the quantifiers fails, with the quantifier error, exactly when the built-in source cannot be opened |
| Loading.QuantifierHoldsItsLines | src/main/java/org/wltea/analyzer/dic/Dictionary.java:489-506 | the quantifier lexicon is fresh: it holds exactly the entries of the lines read |
| Loading.Construct | src/main/java/org/wltea/analyzer/dic/Dictionary.java:159-165 | a completed construction sets `hasAdd` with both lexicons present; a failed one leaves `hasAdd` as it was |
| Loading.WithWordsAdded | src/main/java/org/wltea/analyzer/dic/Dictionary.java:185-194 | definition of the main lexicon after `addWords`: each non-null word filled in its normalised form, in order |
| Loading.WithWordsDisabled | src/main/java/org/wltea/analyzer/dic/Dictionary.java:201-210 | definition of the main lexicon after `disableWords`: each non-null word disabled in its normalised form, in order |
| Loading.WordsAddedEffect | src/main/java/org/wltea/analyzer/dic/Dictionary.java:185-194 | adding words fills exactly the normalised non-null, non-empty words; null words are skipped |
| Loading.WordsDisabledEffect | src/main/java/org/wltea/analyzer/dic/Dictionary.java:201-210 | disabling words keeps every key and switches off exactly the normalised non-null words |
| Loading.ReadAfterClose | src/main/java/org/wltea/analyzer/dic/Dictionary.java:432-439 | a stream closed before it is read yields no line and fails on the first `readLine()` |
| Loading.StopWordsLostAsWritten | src/main/java/org/wltea/analyzer/dic/Dictionary.java:432-474 | as written, a modified stop-word file only has its stamp recorded; read as intended, each of its entries becomes a stop word |
| Loading.StopFilesAsWritten | src/main/java/org/wltea/analyzer/dic/Dictionary.java:425-446 | the stop-word loop as written keeps the stop-word lexicon present and fails exactly where the intended loop does, at the first name the class loader does not know |
| Loading.StopFilesAsWrittenLoadNothing | src/main/java/org/wltea/analyzer/dic/Dictionary.java:425-474 | as written, the stop-word loop changes only the timestamp map, whatever the files hold |
| Loading.StopWordFileExample | src/main/java/org/wltea/analyzer/dic/Dictionary.java:425-474 | a stop-word file holding "the": as written "the" is not a stop word afterwards; as intended it is |
| Dic.DictionaryInstance.constructor | src/main/java/org/wltea/analyzer/dic/Dictionary.java:489 | a new instance starts with an empty quantifier lexicon |
| Dic.DictionaryInstance.LoadQuantifierDict | src/main/java/org/wltea/analyzer/dic/Dictionary.java:487-515 | the loop fills a fresh lexicon with exactly the quantifier lines read; a missing source throws and leaves the fresh lexicon empty |
| Dic.Dictionary.constructor | src/main/java/org/wltea/analyzer/dic/Dictionary.java:59-104 | the static fields start with no singleton, no lexicons, empty maps and sets, and `hasAdd` false |
| Dic.Dictionary.Initial | src/main/java/org/wltea/analyzer/dic/Dictionary.java:122-137 | with a singleton present, it is returned and nothing changes; otherwise the dictionary is constructed, and the singleton is set exactly when construction completes |
| Dic.Dictionary.NewDictionary | src/main/java/org/wltea/analyzer/dic/Dictionary.java:159-165 | construction performs the main, stop-word and quantifier loads in order and then sets `hasAdd`; its result matches `Construct` |
| Dic.Dictionary.GetSingleton | src/main/java/org/wltea/analyzer/dic/Dictionary.java:172-177 | without a singleton it fails with the uninitialised-state error, otherwise it returns the singleton |
| Dic.Dictionary.AddWords | src/main/java/org/wltea/analyzer/dic/Dictionary.java:185-194 | a null collection changes nothing; otherwise the main lexicon becomes `WithWordsAdded` of the words; every other field is unchanged |
| Dic.Dictionary.DisableWords | src/main/java/org/wltea/analyzer/dic/Dictionary.java:201-210 | a null collection changes nothing; otherwise the main lexicon becomes `WithWordsDisabled` of the words; every other field is unchanged |
| Dic.Dictionary.IsStopWord | src/main/java/org/wltea/analyzer/dic/Dictionary.java:267-269 | the slice `begin`..`begin+length` is a stop word exactly when it is an enabled entry of the stop-word lexicon |
| Dic.Dictionary.ReadMainLines | src/main/java/org/wltea/analyzer/dic/Dictionary.java:333-344 | the read loop leaves the main lexicon, `dicExtSet` and the report as `Ingest` of the readable lines |
| Dic.Dictionary.LoadToMain | src/main/java/org/wltea/analyzer/dic/Dictionary.java:301-356 | an unknown file name fails and changes nothing; otherwise the new state and report are those of `LoadFile` on the main lexicon |
| Dic.Dictionary.ReadStopLines | src/main/java/org/wltea/analyzer/dic/Dictionary.java:455-468 | the read loop leaves the stop-word lexicon, `dicStopSet` and the report as `Ingest` of the readable lines |
| Dic.Dictionary.LoadStopFile | src/main/java/org/wltea/analyzer/dic/Dictionary.java:440-479 | one stop-word source: the new state and report are those of `LoadFile` on the stop-word lexicon |
| Dic.Dictionary.LoadMainDict | src/main/java/org/wltea/analyzer/dic/Dictionary.java:274-291 | the new state and failure are those of the `LoadMainDict` function |
| Dic.Dictionary.LoadStopWordDict | src/main/java/org/wltea/analyzer/dic/Dictionary.java:418-482 | the new state and failure are those of the `LoadStopWordDict` function, with each file read as intended |
| Dic.Dictionary.ReloadCycle | src/main/java/org/wltea/analyzer/dic/Dictionary.java:148-155 | one scheduled run leaves the state of `Reload`; an exception from the main load ends the run |
| Dic.SingletonLifecycle | src/main/java/org/wltea/analyzer/dic/Dictionary.java:122-177 | before `initial` `getSingleton` fails; after a successful `initial` a second `initial` and `getSingleton` return the same instance; the first `initial` succeeds exactly when construction completes |

## Left out

- `matchInMainDict` (both overloads), `matchInQuantifierDict` and `matchWithHit` are not modelled. They are lookups inside the trie, and `DictSegment` and `Hit` are not part of this model.
- `DictSegment` is modelled only as a map from an entry to "enabled". Its character-level storage is not modelled.
- `Dic.Dictionary.IsStopWord` requires `begin + length` to lie within the array. The trie's behaviour outside those bounds is not modelled.
- A blank word passed to `addWords` / `disableWords` normalises to the empty string, and the lexicon treats it as a no-op. What the trie does with an empty char array is not part of this model.
- `toLowerCase()` is modelled for ASCII letters only. Locale-dependent and non-ASCII case mapping is not modelled.
- The scheduler (`loadDicFixedTime`, `dicUpdateMin`) and its delays are left out. `Dic.Dictionary.ReloadCycle` models one run of the scheduled task, and `Configuration` has no `dicUpdateMin` field.
- The locking in `initial` is left out. The model is sequential, and concurrent reloads, with their interleavings, are not modelled.
- `print`, `close` and `DATE_FORMAT` are left out, because they only log or release resources. The update report is returned rather than printed.
- The deprecated `loadExtDict` is not modelled, because nothing calls it.
- Reading a file (UTF-8 decoding, buffering) is replaced by the `Classpath` parameter.
- `loadToMain` and the stop-word loop call `file.lastModified()` at the freshness check and again in `finally`. The model takes a single stamp per source, so a file that changes while it is being read is not modelled.
- Timestamps are unbounded integers. `long` overflow is not modelled.
- `Loading.LoadMainDict`: its own contract states only that the main lexicon exists afterwards. Its effect is stated by `Loading.BuiltInLoadedOnce`, `Loading.BuiltInEntriesLoaded`, `Loading.DisabledSkipsBuiltIn` and `Loading.ExtensionEntriesLoaded`, and by the lemmas about `LoadFiles`. The entries an extension file adds are stated for the first load only. On a reload, a file may be skipped as unmodified.
- `Loading.LoadStopWordDict`: its own contract states only that the stop-word lexicon exists afterwards. Its effect is stated by `Loading.StopWordEntriesLoaded` (first load only, as for the main lexicon) and by the lemmas about `LoadFiles`.
- `Dic.Dictionary.LoadStopWordDict` and `Loading.LoadStopWordDict` model the stop-word loop as intended, not as written. So does everything that runs that loop: `Dic.Dictionary.NewDictionary`, `Dic.Dictionary.Initial`, `Dic.Dictionary.ReloadCycle`, `Dic.SingletonLifecycle`, `Loading.Construct`, `Loading.Reload` and `Loading.ReloadTwiceIsNoop`. The loop as written is `Loading.StopFilesAsWritten` (see Findings).

## Findings

| source | as written | input that shows it | evidently intended | confidence | as-written member | corrected member |
|---|---|---|---|---|---|---|
| src/main/java/org/wltea/analyzer/dic/Dictionary.java:426-474 | the `finally` at 437-439 closes each stop-word `FileInputStream` right after opening it, so the reader built at 452-453 throws on its first `readLine()`; the file's stamp is still recorded at 474, and `is` is declared outside the loop (426), so after one opened file an unopenable one is not skipped | a stop-word file holding the line "the", loaded for the first time | each stop-word file's non-blank lines become stop words, as for `loadToMain` | high (not executed) | Loading.StopFilesAsWritten, Loading.StopFilesAsWrittenLoadNothing, Loading.StopWordFileExample | Dic.Dictionary.LoadStopWordDict, Loading.LoadStopWordDict, Loading.StopWordFileExample |
