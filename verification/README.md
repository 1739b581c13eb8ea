# Regex Extractor — verified model of the extraction core

The Regex Extractor is a Burp Suite extension: the user stores named regular
expressions, picks one from a dropdown, selects HTTP messages in Burp and asks
for the matches of that pattern in their responses. This project models the
sequential logic behind that, in Dafny:

- **Extraction engine** (`extraction.dfy`, module `Extraction`): the three
  gates that stop an extraction before any scanning (nothing selected, no
  usable pattern, pattern does not compile), the deduplication of the selected
  messages by response byte length, and the accumulation of `findall` matches
  over the deduplicated messages, where a message whose processing raises is
  skipped. The regex library and Burp's `bytesToString` are the uninterpreted
  functions of an `Engine` value.
- **Pattern store** (`pattern_store.dfy`, module `PatternStore`): the state
  `(patterns map, dropdown items)` and the transitions `save_pattern`,
  `load_patterns` and `load_regex_patterns`. File reads and writes are
  parameters (`ReadOutcome`, `WriteOutcome`).
- **Text** (`text.dfy`, module `Text`): Python's `strip()` and the code-point
  ordering used by `sorted()`, with the sorted listing of a set of names.
- `wrappers.dfy`: `Option` and `Result`.

Behaviour of the code worth stating up front:

- Empty or absent responses are dropped, not deduplicated as length 0
  (`if response:` at regext.py:153).
- When "Load Patterns" is pressed, a missing pattern file is reported like
  any other load failure ("Failed to load regex patterns", regext.py:76-78);
  the model emits `LoadFailed` for it. At start-up the same failure is fatal
  (see "## Findings").
- The per-message `try` covers decoding, `findall` and the set update alike
  (regext.py:161-166), so `Engine.fails` stands for any of them raising.

## Model

| member | source | states |
|---|---|---|
| Text.Trim | regext.py:81-82 | `strip()` returns a contiguous slice of the input with only whitespace around it, neither starting nor ending with whitespace |
| Text.TrimEmptyIffAllSpace | regext.py:81-84 | a stripped input is empty exactly when the raw input is all whitespace, which is when the save is refused |
| Text.TrimIdempotent | regext.py:81-82 | stripping an already stripped name or pattern changes nothing |
| Text.SortedList | regext.py:109 | `sorted(keys)` lists every key exactly once, in strictly ascending code-point order, and nothing else |
| Text.SortedListingUnique | regext.py:108-110 | two strictly sorted listings of the same names are equal, so the rebuilt dropdown is determined by the key set |
| Extraction.KeptFrom | regext.py:148-157 | the positions the loop keeps are increasing, hold non-empty responses of lengths not yet seen, and have pairwise different lengths |
| Extraction.KeptFromExact | regext.py:151-157 | with `seen_lengths` tracking earlier lengths, the loop keeps exactly the positions holding the first non-empty response of their length |
| Extraction.DedupByLength | regext.py:148-157 | the deduplication loop computes the reference deduplication of the selection |
| Extraction.DedupIsOrderedSubsequence | regext.py:151-157 | the deduplicated messages are an order-preserving subsequence of the selection |
| Extraction.DedupLengthsDistinct | regext.py:154-157 | no two deduplicated messages have the same response length |
| Extraction.DedupDropsEmpty | regext.py:152-153 | a message whose response is empty or absent is never kept, so never scanned |
| Extraction.DedupKeepsFirstOfEachLength | regext.py:151-157 | a message is kept iff it is the first with a non-empty response of its length, and every such length has a kept message |
| Extraction.DedupLengthsCover | regext.py:151-157 | the kept messages carry exactly the non-empty response lengths of the selection |
| Extraction.DedupCount | regext.py:148-157 | the deduplicated count is the number of distinct non-empty response lengths and never exceeds the selection size |
| Extraction.DedupExample | regext.py:151-157 | responses of lengths 10, 20, 10, 30 keep positions 0, 1 and 3 |
| Extraction.ScanIsUnion | regext.py:159-166 | the match set is the union of `findall` results over the messages whose processing does not raise |
| Extraction.ScanSkipsFailure | regext.py:160-166 | a message whose processing raises contributes nothing and the rest are scanned as if it were absent |
| Extraction.DedupMatchesFromFirstOfLength | regext.py:148-166 | scanning the deduplicated messages yields the matches of exactly the first-of-length messages that do not raise |
| Extraction.ExtractWorker | regext.py:147-168 | the background loops return the accumulated match set and the deduplicated count, which is at most the number selected |
| Extraction.Extract | regext.py:125-168 | extraction stops with no result iff nothing is selected, or the selected name is missing or maps to "", or the pattern fails to compile; otherwise it returns the matches of the first-of-length messages that do not raise and the number of distinct non-empty response lengths |
| Extraction.ExtractRegexFromResponses | regext.py:125-168 | the gates followed by the worker compute the same outcome as the pipeline |
| PatternStore.LoadRegexPatterns | regext.py:68-78 | a parsed object is returned as is; a non-object or a failed read yields an empty map and one log line |
| PatternStore.SavePattern | regext.py:80-99 | blank name or pattern changes nothing; otherwise the map gets `name -> pattern` with every other entry unchanged even when the write fails; after a failed write the dropdown is unchanged; after a successful write the name is listed, once if it was new and appended after the old items, and the dropdown is unchanged if it was already listed |
| PatternStore.LoadPatterns | regext.py:101-112 | an empty, failed or non-object load leaves map and dropdown unchanged; otherwise the map is replaced and the dropdown lists its names strictly sorted |
| PatternStore.ReloadDropdownIsSortedNames | regext.py:108-110 | after a successful reload the dropdown equals any strictly sorted listing of the loaded names |
| PatternStore.SavePreservesWellformed | regext.py:88-97 | saving keeps every dropdown item a saved name and no item listed twice |
| PatternStore.ReloadPreservesWellformed | regext.py:101-110 | reloading keeps every dropdown item a saved name and no item listed twice |
| PatternStore.StartupLoadAsWritten | regext.py:15-24 | at registration the load succeeds exactly when the file parses as an object; any other outcome stops registration |
| PatternStore.MissingFileStopsStartup | regext.py:22-24 | a missing or non-object pattern file stops registration |
| PatternStore.Startup | regext.py:22-24 | start-up as intended: every load outcome yields a well-formed store, empty with an empty dropdown when the file cannot be used, whose dropdown lists exactly the loaded names |
| PatternStore.SaveThenReload | regext.py:88-110 | a saved pattern that reached the file is found again, with its name in the dropdown, by a reload that reads back what was written |

## Left out

- Swing GUI construction, `getTabCaption`, `getUiComponent`, `on_pattern_selected`, `createMenuItems` and `MenuItemActionListener`: user-interface plumbing with no logic of its own.
- `append_output` and the text of log lines: the store actions return an abstract `Notice` trace instead; the extraction's "Processing N responses" and per-message "Error processing a response" lines are not modelled.
- `registerExtenderCallbacks` and the initial dropdown built from `keys()`: the initial order is the dictionary's, which the model cannot know; `PatternStore.Startup` lists the names sorted instead. `PatternStore.Wellformed` is the property a start-up that succeeds establishes and every action preserves.
- The `SwingWorker` thread and its `done` step, including sorting the matches for display: the model covers only the value `doInBackground` computes; concurrency between workers and store actions is not modelled.
- The dropdown's current selection: extraction takes the selected name as an `Option<string>` parameter; Swing's selection rules on `addItem` and `removeAllItems` are not modelled.
- A `null` array from `getSelectedMessages`: modelled as the empty selection, which the code treats the same way.
- File I/O and JSON: `ReadOutcome` and `WriteOutcome` stand for what opening, parsing and writing produced; a write that fails part way may leave the file truncated, and the model says nothing about the file after a failed write.
- JSON values that are not strings: the model's map holds strings only, so the `TypeError` that `re.compile` would raise on such a value (not caught by `except re.error`) is out of scope.
- Python `re`: compilation, `findall` and catastrophic backtracking are the uninterpreted fields of `Engine`; `findall` on a pattern with several groups returns tuples, which the model's `seq<string>` result does not represent.
- Text.Trim: uses a fixed list of whitespace characters, the set of Python 3's `str.isspace()`; U+180E, which Python 2.7's `unicode.isspace()` also accepts, is not in it, and other Unicode-version differences of the host's Python runtime are not modelled.
- Text.SortedList: orders strings by Unicode code point, which is how Python compares strings; UTF-16 code-unit ordering of a Java-backed runtime differs only for characters above U+FFFF and is not modelled.
- PatternStore.LoadRegexPatterns: states that a failed load produces one log line, not which of the two messages it is. Its empty-map fallback holds only once the output area exists (the call from `load_patterns`); at registration the log line itself raises, as recorded under "## Findings".

## Findings

| source | as written | input that shows it | evidently intended | confidence | as-written member | corrected member |
|---|---|---|---|---|---|---|
| regext.py:22-24 | `load_regex_patterns` runs before `init_gui`, so its failure path calls `append_output` (regext.py:73, 77, 185) before `output_area` exists; the resulting `AttributeError` escapes the `except` and registration stops | no `saved_regex_patterns.json` in the working directory (the first start), or a file holding a JSON array | start with an empty pattern map and an empty dropdown, as the fallback `return {}` says | medium; not executed | PatternStore.StartupLoadAsWritten, PatternStore.MissingFileStopsStartup | PatternStore.Startup |
