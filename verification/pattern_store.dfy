/**
 * The pattern store of the Regex Extractor extension: the in-memory map from
 * pattern name to regex source, the list of names shown in the "Saved
 * Patterns" dropdown, and the save and reload actions that change them.
 *
 * Reading and writing the JSON pattern file are outside the model: a
 * `ReadOutcome` stands for what opening and parsing the file produced, and a
 * `WriteOutcome` for whether writing it raised.
 */
module PatternStore {
  import opened Wrappers
  import opened Text

  /** The extension's pattern state: the saved patterns and the dropdown's items in order. */
  datatype Store = Store(patterns: map<string, string>, dropdown: seq<string>)

  /** What opening and parsing the pattern file produced. */
  datatype ReadOutcome =
    | ReadFailed                              // opening or parsing raised, including a missing file
    | NotAnObject                             // parsed, but the top-level value is not an object
    | Parsed(contents: map<string, string>)   // a JSON object of pattern name to source

  /** Whether writing the pattern file raised. */
  datatype WriteOutcome = Written | WriteFailed

  /** The status lines the store actions append to the output log. */
  datatype Notice =
    | FormatInvalid
    | LoadFailed
    | MissingInput
    | SaveFailed
    | SavedPattern(name: string)
    | Reloaded

  datatype Loaded = Loaded(patterns: map<string, string>, notices: seq<Notice>)

  /**
   * Every dropdown item names a saved pattern, and no item is listed twice.
   * The dropdown may lack names whose save failed to reach the file.
   */
  predicate Wellformed(s: Store) {
    && Distinct(s.dropdown)
    && forall i :: 0 <= i < |s.dropdown| ==> s.dropdown[i] in s.patterns
  }

  /**
   * `load_regex_patterns`: the parsed object, or an empty map with one notice
   * when the file cannot be read or does not hold an object.
   */
  function LoadRegexPatterns(read: ReadOutcome): (r: Loaded)
    ensures read.Parsed? ==> r.patterns == read.contents && r.notices == []
    ensures !read.Parsed? ==> r.patterns == map[] && |r.notices| == 1
    ensures r.patterns != map[] ==> read == Parsed(r.patterns)
  {
    match read
    case ReadFailed => Loaded(map[], [LoadFailed])
    case NotAnObject => Loaded(map[], [FormatInvalid])
    case Parsed(contents) => Loaded(contents, [])
  }

  /** The store after a save, the map handed to the JSON writer (if the write succeeded), and the log line. */
  datatype SaveOutcome = SaveOutcome(store: Store, written: Option<map<string, string>>, notice: Notice)

  /**
   * `save_pattern`: strip both inputs; with either one empty, change nothing.
   * Otherwise record `name -> pattern` (kept even if the write then fails),
   * write the whole map, and on success add the name to the dropdown unless
   * it is already listed.
   */
  function SavePattern(s: Store, nameText: string, patternText: string, write: WriteOutcome): (r: SaveOutcome)
    ensures AllSpace(nameText) || AllSpace(patternText) ==>
      r.store == s && r.written == None && r.notice == MissingInput
    ensures !AllSpace(nameText) && !AllSpace(patternText) ==>
      var name, pattern := Trim(nameText), Trim(patternText);
      && r.store.patterns.Keys == s.patterns.Keys + {name}
      && r.store.patterns[name] == pattern
      && (forall k :: k in s.patterns && k != name ==> r.store.patterns[k] == s.patterns[k])
    ensures !AllSpace(nameText) && !AllSpace(patternText) && write == WriteFailed ==>
      r.store.dropdown == s.dropdown && r.written == None && r.notice == SaveFailed
    ensures !AllSpace(nameText) && !AllSpace(patternText) && write == Written ==>
      var name := Trim(nameText);
      && r.written == Some(r.store.patterns)
      && r.notice == SavedPattern(name)
      && name in r.store.dropdown
      && (name in s.dropdown ==> r.store.dropdown == s.dropdown)
      && (name !in s.dropdown ==>
            && |r.store.dropdown| == |s.dropdown| + 1
            && r.store.dropdown[..|s.dropdown|] == s.dropdown
            && multiset(r.store.dropdown)[name] == 1)
  {
    TrimEmptyIffAllSpace(nameText);
    TrimEmptyIffAllSpace(patternText);
    var name := Trim(nameText);
    var pattern := Trim(patternText);
    if name == [] || pattern == [] then
      SaveOutcome(s, None, MissingInput)
    else
      var patterns := s.patterns[name := pattern];
      match write
      case WriteFailed =>
        SaveOutcome(Store(patterns, s.dropdown), None, SaveFailed)
      case Written =>
        var dropdown := if name in s.dropdown then s.dropdown else s.dropdown + [name];
        assert name !in s.dropdown ==> dropdown[..|s.dropdown|] == s.dropdown;
        SaveOutcome(Store(patterns, dropdown), Some(patterns), SavedPattern(name))
  }

  /** The store after a reload, and the log lines the reload produced. */
  datatype ReloadOutcome = ReloadOutcome(store: Store, notices: seq<Notice>)

  /**
   * `load_patterns`: when the file yields a non-empty object, it replaces the
   * map and the dropdown lists its names in sorted order; otherwise nothing
   * changes.
   */
  function LoadPatterns(s: Store, read: ReadOutcome): (r: ReloadOutcome)
    ensures !read.Parsed? || read.contents == map[] ==> r.store == s
    ensures !read.Parsed? ==> |r.notices| == 1
    ensures read == Parsed(map[]) ==> r.notices == []
    ensures read.Parsed? && read.contents != map[] ==>
      && r.store.patterns == read.contents
      && StrictlySorted(r.store.dropdown)
      && (forall x :: x in r.store.dropdown <==> x in read.contents)
      && r.notices == [Reloaded]
  {
    var loaded := LoadRegexPatterns(read);
    if loaded.patterns == map[] then
      ReloadOutcome(s, loaded.notices)
    else
      ReloadOutcome(Store(loaded.patterns, SortedList(loaded.patterns.Keys)), loaded.notices + [Reloaded])
  }

  /** After a successful reload the dropdown is the one sorted listing of the names: any other sorted listing equals it. */
  lemma ReloadDropdownIsSortedNames(s: Store, contents: map<string, string>, names: seq<string>)
    requires contents != map[]
    requires StrictlySorted(names) && forall x :: x in names <==> x in contents
    ensures LoadPatterns(s, Parsed(contents)).store.dropdown == names
  {
    var dropdown := LoadPatterns(s, Parsed(contents)).store.dropdown;
    SortedListingUnique(dropdown, names);
  }

  /** Saving keeps the store well formed, whatever the write outcome. */
  lemma SavePreservesWellformed(s: Store, nameText: string, patternText: string, write: WriteOutcome)
    requires Wellformed(s)
    ensures Wellformed(SavePattern(s, nameText, patternText, write).store)
  {
    var r := SavePattern(s, nameText, patternText, write).store;
    if !AllSpace(nameText) && !AllSpace(patternText) && write == Written {
      var name := Trim(nameText);
      if name !in s.dropdown {
        forall i, j | 0 <= i < j < |r.dropdown| ensures r.dropdown[i] != r.dropdown[j] {
          if j == |s.dropdown| {
            assert r.dropdown[i] == s.dropdown[i];
          } else {
            assert r.dropdown[i] == s.dropdown[i] && r.dropdown[j] == s.dropdown[j];
          }
        }
        forall i | 0 <= i < |r.dropdown| ensures r.dropdown[i] in r.patterns {
          if i < |s.dropdown| {
            assert r.dropdown[i] == s.dropdown[i];
          }
        }
      }
    }
  }

  /** Reloading keeps the store well formed, whatever the file holds. */
  lemma ReloadPreservesWellformed(s: Store, read: ReadOutcome)
    requires Wellformed(s)
    ensures Wellformed(LoadPatterns(s, read).store)
  {
    var r := LoadPatterns(s, read).store;
    if read.Parsed? && read.contents != map[] {
      StrictlySortedIsDistinct(r.dropdown);
    }
  }

  /**
   * A save that reaches the file followed by a reload that reads back what was
   * written: the saved pattern is in the reloaded map and its name in the dropdown.
   */
  lemma SaveThenReload(s: Store, nameText: string, patternText: string)
    requires !AllSpace(nameText) && !AllSpace(patternText)
    ensures var saved := SavePattern(s, nameText, patternText, Written);
      && saved.written.Some?
      && var reloaded := LoadPatterns(saved.store, Parsed(saved.written.value)).store;
      && Trim(nameText) in reloaded.patterns
      && reloaded.patterns[Trim(nameText)] == Trim(patternText)
      && Trim(nameText) in reloaded.dropdown
  {
  }

  // ---------------------------------------------------------------------------
  // Start-up
  // ---------------------------------------------------------------------------

  /** Why registering the extension stopped. */
  datatype StartupError = LogBeforeOutputArea

  /**
   * Loading at registration as written: the file is read before the output
   * area exists, so the log line of a failed or non-object load raises out of
   * the handler and registration stops.
   */
  function StartupLoadAsWritten(read: ReadOutcome): (r: Result<map<string, string>, StartupError>)
    ensures r.Success? <==> read.Parsed?
    ensures r.Success? ==> r.value == read.contents
  {
    var loaded := LoadRegexPatterns(read);
    if loaded.notices != [] then Failure(LogBeforeOutputArea) else Success(loaded.patterns)
  }

  /** A first start, with no pattern file yet, stops registration instead of starting with no patterns. */
  lemma MissingFileStopsStartup()
    ensures StartupLoadAsWritten(ReadFailed) == Failure(LogBeforeOutputArea)
    ensures StartupLoadAsWritten(NotAnObject) == Failure(LogBeforeOutputArea)
  {
  }

  /**
   * Start-up as intended: any load outcome gives a store, empty when the file
   * cannot be used, and the dropdown lists the loaded names (here in sorted
   * order; the source uses the dictionary's order).
   */
  function Startup(read: ReadOutcome): (r: Store)
    ensures Wellformed(r)
    ensures !read.Parsed? ==> r.patterns == map[] && r.dropdown == []
    ensures read.Parsed? ==> r.patterns == read.contents
    ensures forall x :: x in r.dropdown <==> x in r.patterns
  {
    var patterns := LoadRegexPatterns(read).patterns;
    var dropdown := SortedList(patterns.Keys);
    StrictlySortedIsDistinct(dropdown);
    Store(patterns, dropdown)
  }
}
