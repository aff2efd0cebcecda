/**
 * The load pipeline of the dictionary manager, as pure functions over a value
 * that holds its static fields: what one `readLine` loop does to a lexicon and
 * to its ingested-line set, the freshness skip and timestamp record of
 * `loadToMain` and of the stop-word loop, `loadMainDict`, `loadStopWordDict`,
 * `loadQuantifierDict`, one scheduled reload cycle, and `addWords` /
 * `disableWords`. The methods of `Dic.Dictionary` are proved against these.
 */
module Loading {
  import opened Wrappers
  import opened Text
  import opened Lexicons

  // ---------------------------------------------------------------------------
  // Sources

  /**
   * What a reader over one source yields: its lines, and, when reading breaks,
   * the index of the `readLine()` call that throws `IOException`.
   */
  datatype Content = Content(lines: seq<string>, failAt: Option<nat>)

  /** Whether some `readLine()` call on this content throws. */
  predicate Fails(c: Content) {
    c.failAt.Some? && c.failAt.value <= |c.lines|
  }

  /** The number of lines delivered before the reader stops. */
  function Cut(c: Content): (n: nat)
    ensures n <= |c.lines|
    ensures n < |c.lines| ==> Fails(c)
  {
    if Fails(c) then c.failAt.value else |c.lines|
  }

  /** The lines a loader gets to see: everything before the failing `readLine()`. */
  function Readable(c: Content): (r: seq<string>)
    ensures |r| <= |c.lines| && r == c.lines[..|r|]
    ensures !Fails(c) ==> r == c.lines
    ensures Fails(c) ==> |r| == c.failAt.value
  {
    c.lines[..Cut(c)]
  }

  datatype ReadOutcome = Line(text: string) | EndOfStream | ReadFailure

  /** The outcome of the `i`-th `readLine()` call: a line, `null`, or `IOException`. */
  function ReadLine(c: Content, i: nat): ReadOutcome {
    if i < Cut(c) then Line(c.lines[i])
    else if Fails(c) then ReadFailure
    else EndOfStream
  }

  /**
   * What the class loader and the file system report for one resource name at
   * the moment of a load: the path `getResource(name).getPath()` gives, the
   * file's `lastModified()`, and the content, absent when the stream cannot be
   * opened.
   */
  datatype Resource = Resource(path: string, lastModified: int, content: Option<Content>)

  /** Resource names the class loader can resolve; any other name is unknown to it. */
  type Classpath = map<string, Resource>

  /**
   * The key under which `dicLastModified` records a source: the file path, or
   * `None` for the `null` path of the built-in main dictionary.
   */
  type SourceKey = Option<string>

  /** The first steps of a load: resolving the name and opening a stream. */
  datatype Opened =
    | Unresolved(name: string)                             // getFilePath dereferences a null URL
    | NotOpened                                            // no stream: logged, source skipped
    | Opened(key: SourceKey, stamp: int, content: Content)

  /**
   * The built-in main dictionary is read with `getResourceAsStream`; its path
   * stays `null` and its timestamp is that of `new File("")`, which is 0.
   */
  function OpenBuiltIn(cp: Classpath, name: string): (o: Opened)
    ensures !o.Unresolved?
    ensures o.Opened? ==> o.key == None && o.stamp == 0
  {
    if name in cp && cp[name].content.Some? then Opened(None, 0, cp[name].content.value)
    else NotOpened
  }

  /** Extension and stop-word files are resolved with `getFilePath` and opened with `FileInputStream`. */
  function OpenFile(cp: Classpath, name: string): (o: Opened)
    ensures o.Unresolved? <==> name !in cp
    ensures o.Opened? ==> o.key == Some(cp[name].path) && o.stamp == cp[name].lastModified
  {
    if name !in cp then Unresolved(name)
    else if cp[name].content.None? then NotOpened
    else Opened(Some(cp[name].path), cp[name].lastModified, cp[name].content.value)
  }

  /** The failures that leave a load: the two exceptions the source lets escape. */
  datatype Error =
    | UninitializedState                  // getSingleton before initial
    | ResourceNotFound(name: string)      // NullPointerException from getFilePath
    | QuantifierDictionaryNotFound        // RuntimeException from loadQuantifierDict

  /** The parts of the configuration the loaders consult. */
  datatype Configuration = Configuration(
    mainDictionary: string,
    quantifierDictionary: string,
    extDictionaries: Option<seq<string>>,
    extStopWordDictionaries: Option<seq<string>>,
    dicDisable: bool)

  /** A configured list of names; a `null` list and an empty one are both visited as nothing. */
  function Names(list: Option<seq<string>>): seq<string> {
    if list.Some? then list.value else []
  }

  // ---------------------------------------------------------------------------
  // One read loop

  /** The entries a sequence of lines contributes: its non-blank lines, normalised. */
  function Entries(lines: seq<string>): set<string> {
    set l | l in lines && !IsBlank(l) :: Normalize(l)
  }

  /** The raw non-blank lines: the keys of the ingested-line sets. */
  function NonBlank(lines: seq<string>): set<string> {
    set l | l in lines && !IsBlank(l)
  }

  lemma EntriesCons(lines: seq<string>)
    requires lines != []
    ensures Entries(lines) == (if IsBlank(lines[0]) then {} else {Normalize(lines[0])}) + Entries(lines[1..])
    ensures NonBlank(lines) == (if IsBlank(lines[0]) then {} else {lines[0]}) + NonBlank(lines[1..])
  {
    assert forall l :: l in lines <==> l == lines[0] || l in lines[1..];
  }

  /** The lexicon after a loop that fills every non-blank line (the quantifier loop). */
  function FillLines(lex: Lexicon, lines: seq<string>): Lexicon
    decreases |lines|
  {
    if lines == [] then lex
    else FillLines(if IsBlank(lines[0]) then lex else lex.Fill(Normalize(lines[0])), lines[1..])
  }

  /** Filling lines adds exactly their entries to the lexicon's nodes. */
  lemma {:induction false} FillLinesKeys(lex: Lexicon, lines: seq<string>)
    ensures FillLines(lex, lines).entries.Keys == lex.entries.Keys + Entries(lines)
    decreases |lines|
  {
    if lines != [] {
      var l := lines[0];
      var next := if IsBlank(l) then lex else lex.Fill(Normalize(l));
      FillLinesKeys(next, lines[1..]);
      EntriesCons(lines);
      var added: set<string> := if IsBlank(l) then {} else {Normalize(l)};
      assert next.entries.Keys == lex.entries.Keys + added by {
        NormalizeEmptyIffBlank(l);
      }
      calc {
        FillLines(lex, lines).entries.Keys;
        FillLines(next, lines[1..]).entries.Keys;
        lex.entries.Keys + added + Entries(lines[1..]);
        lex.entries.Keys + Entries(lines);
      }
    }
  }

  /** Filling lines enables exactly their entries and leaves every other word as it was. */
  lemma {:induction false} FillLinesContains(lex: Lexicon, lines: seq<string>, w: string)
    ensures FillLines(lex, lines).Contains(w) <==> lex.Contains(w) || w in Entries(lines)
    decreases |lines|
  {
    if lines != [] {
      var l := lines[0];
      var next := if IsBlank(l) then lex else lex.Fill(Normalize(l));
      FillLinesContains(next, lines[1..], w);
      EntriesCons(lines);
      NormalizeEmptyIffBlank(l);
      assert FillLines(lex, lines) == FillLines(next, lines[1..]);
      assert next.Contains(w) <==> lex.Contains(w) || (!IsBlank(l) && w == Normalize(l));
    }
  }

  lemma FillLinesEffect(lex: Lexicon, lines: seq<string>)
    ensures FillLines(lex, lines).entries.Keys == lex.entries.Keys + Entries(lines)
    ensures forall w :: FillLines(lex, lines).Contains(w) <==> lex.Contains(w) || w in Entries(lines)
  {
    FillLinesKeys(lex, lines);
    forall w ensures FillLines(lex, lines).Contains(w) <==> lex.Contains(w) || w in Entries(lines) {
      FillLinesContains(lex, lines, w);
    }
  }

  /** The state one read loop works on: a lexicon, its ingested-line set, and the update report. */
  datatype Ingested = Ingested(lexicon: Lexicon, seen: set<string>, report: seq<string>)

  /**
   * One non-null line: a blank line is skipped; otherwise the raw line is added
   * to the ingested set (and to the report when `reporting`, i.e. `hasAdd`) if
   * it was absent, and its normalised form is filled in any case.
   */
  function IngestLine(acc: Ingested, line: string, reporting: bool): Ingested {
    if IsBlank(line) then acc
    else Ingested(
      acc.lexicon.Fill(Normalize(line)),
      acc.seen + {line},
      if line !in acc.seen && reporting then acc.report + [line] else acc.report)
  }

  function Ingest(acc: Ingested, lines: seq<string>, reporting: bool): Ingested
    decreases |lines|
  {
    if lines == [] then acc else Ingest(IngestLine(acc, lines[0], reporting), lines[1..], reporting)
  }

  /** The lexicon a read loop leaves does not depend on the ingested set: every line is filled. */
  lemma {:induction false} IngestLexicon(acc: Ingested, lines: seq<string>, reporting: bool)
    ensures Ingest(acc, lines, reporting).lexicon == FillLines(acc.lexicon, lines)
    decreases |lines|
  {
    if lines != [] {
      IngestLexicon(IngestLine(acc, lines[0], reporting), lines[1..], reporting);
    }
  }

  /** The ingested set grows by exactly the raw non-blank lines. */
  lemma {:induction false} IngestSeen(acc: Ingested, lines: seq<string>, reporting: bool)
    ensures Ingest(acc, lines, reporting).seen == acc.seen + NonBlank(lines)
    decreases |lines|
  {
    if lines != [] {
      IngestSeen(IngestLine(acc, lines[0], reporting), lines[1..], reporting);
      EntriesCons(lines);
    }
  }

  predicate Distinct(s: seq<string>) {
    forall i, j :: 0 <= i < j < |s| ==> s[i] != s[j]
  }

  /**
   * The update report is extended by exactly the lines newly added to the
   * ingested set, each once, and only when reporting.
   */
  lemma {:induction false} IngestReport(acc: Ingested, lines: seq<string>, reporting: bool)
    ensures var r := Ingest(acc, lines, reporting);
      && |acc.report| <= |r.report| && r.report[..|acc.report|] == acc.report
      && (!reporting ==> r.report == acc.report)
      && (forall x :: x in r.report[|acc.report|..] <==> reporting && x in r.seen && x !in acc.seen)
      && Distinct(r.report[|acc.report|..])
    decreases |lines|
  {
    IngestSeen(acc, lines, reporting);
    if lines != [] {
      var l := lines[0];
      var next := IngestLine(acc, l, reporting);
      IngestReport(next, lines[1..], reporting);
      IngestSeen(next, lines[1..], reporting);
      var r := Ingest(acc, lines, reporting);
      var added := r.report[|acc.report|..];
      if !IsBlank(l) && l !in acc.seen && reporting {
        assert next.report == acc.report + [l];
        assert added == [l] + r.report[|next.report|..];
      } else {
        assert next.report == acc.report;
      }
    }
  }

  // ---------------------------------------------------------------------------
  // The static state and one source

  /** Which of the two reloadable lexicons a loop feeds: main with `dicExtSet`, or stop words with `dicStopSet`. */
  datatype Target = MainWords | StopWords {
    function Other(): Target {
      if MainWords? then StopWords else MainWords
    }
  }

  /**
   * The static fields of the dictionary manager that loading touches:
   * `_MainDict` and `_StopWordDict` (`None` while `null`), `dicLastModified`,
   * `dicExtSet`, `dicStopSet` and `hasAdd`.
   */
  datatype Statics = Statics(
    mainDict: Option<Lexicon>,
    stopDict: Option<Lexicon>,
    lastModified: map<SourceKey, int>,
    extSet: set<string>,
    stopSet: set<string>,
    hasAdd: bool)
  {
    function Dict(t: Target): Option<Lexicon> {
      if t.MainWords? then mainDict else stopDict
    }

    function Seen(t: Target): set<string> {
      if t.MainWords? then extSet else stopSet
    }

    function With(t: Target, lex: Lexicon, seen: set<string>): (r: Statics)
      ensures r.Dict(t) == Some(lex) && r.Seen(t) == seen
      ensures r.Dict(t.Other()) == Dict(t.Other()) && r.Seen(t.Other()) == Seen(t.Other())
      ensures r.lastModified == lastModified && r.hasAdd == hasAdd
    {
      if t.MainWords? then this.(mainDict := Some(lex), extSet := seen)
      else this.(stopDict := Some(lex), stopSet := seen)
    }

    /** Every ingested line is non-blank and its normalised form is an entry of its lexicon. */
    predicate SeenStored(t: Target) {
      forall s :: s in Seen(t) ==> !IsBlank(s) && Dict(t).Some? && Normalize(s) in Dict(t).value.entries
    }

    predicate Consistent() {
      SeenStored(MainWords) && SeenStored(StopWords)
    }
  }

  /** The state of a process in which `Dictionary` has just been loaded. */
  const InitialStatics := Statics(None, None, map[], {}, {}, false)

  /** The freshness skip: not the first load, source seen before, timestamp not newer. */
  predicate Unmodified(st: Statics, key: SourceKey, stamp: int) {
    st.hasAdd && key in st.lastModified && stamp <= st.lastModified[key]
  }

  datatype FileLoad = FileLoad(st: Statics, report: seq<string>)

  /**
   * One source loaded into lexicon `t`: nothing happens when no stream was
   * opened or the source is unmodified; otherwise the readable lines are
   * ingested and the source's timestamp is recorded, even when a read failed.
   */
  function LoadFile(st: Statics, t: Target, o: Opened): (r: FileLoad)
    requires st.Dict(t).Some? && !o.Unresolved?
    ensures r.st.Dict(t).Some? && r.st.hasAdd == st.hasAdd
    ensures r.st.Dict(t.Other()) == st.Dict(t.Other()) && r.st.Seen(t.Other()) == st.Seen(t.Other())
    ensures o.NotOpened? || (o.Opened? && Unmodified(st, o.key, o.stamp)) ==> r == FileLoad(st, [])
    ensures o.Opened? && !Unmodified(st, o.key, o.stamp) ==>
      r.st.lastModified == st.lastModified[o.key := o.stamp]
  {
    match o
    case NotOpened => FileLoad(st, [])
    case Opened(key, stamp, content) =>
      if Unmodified(st, key, stamp) then FileLoad(st, [])
      else
        var r := Ingest(Ingested(st.Dict(t).value, st.Seen(t), []), Readable(content), st.hasAdd);
        FileLoad(st.With(t, r.lexicon, r.seen).(lastModified := st.lastModified[key := stamp]), r.report)
  }

  /**
   * A source that is read, even one whose reading stopped on an I/O error, has
   * its timestamp recorded; its lexicon gains exactly the entries of the lines
   * read before the failure, and its ingested set exactly those raw lines.
   */
  lemma PartialReadKept(st: Statics, t: Target, o: Opened)
    requires st.Dict(t).Some? && o.Opened? && !Unmodified(st, o.key, o.stamp)
    ensures var r := LoadFile(st, t, o).st;
      && r.lastModified[o.key] == o.stamp
      && r.Seen(t) == st.Seen(t) + NonBlank(Readable(o.content))
      && forall w :: r.Dict(t).value.Contains(w) <==>
           st.Dict(t).value.Contains(w) || w in Entries(Readable(o.content))
  {
    var acc := Ingested(st.Dict(t).value, st.Seen(t), []);
    IngestLexicon(acc, Readable(o.content), st.hasAdd);
    IngestSeen(acc, Readable(o.content), st.hasAdd);
    FillLinesEffect(st.Dict(t).value, Readable(o.content));
  }

  /**
   * The update report of one source lists, without repetition, exactly the
   * raw lines that were not yet in the ingested set, and is empty on the first
   * load (before `hasAdd`).
   */
  lemma LoadFileReport(st: Statics, t: Target, o: Opened)
    requires st.Dict(t).Some? && !o.Unresolved?
    ensures var r := LoadFile(st, t, o);
      && Distinct(r.report)
      && (!st.hasAdd ==> r.report == [])
      && forall x :: x in r.report <==> st.hasAdd && x in r.st.Seen(t) && x !in st.Seen(t)
  {
    if o.Opened? && !Unmodified(st, o.key, o.stamp) {
      var acc := Ingested(st.Dict(t).value, st.Seen(t), []);
      IngestReport(acc, Readable(o.content), st.hasAdd);
      IngestSeen(acc, Readable(o.content), st.hasAdd);
      assert Ingest(acc, Readable(o.content), st.hasAdd).report[|acc.report|..]
          == Ingest(acc, Readable(o.content), st.hasAdd).report;
    }
  }

  /** Loading keeps every ingested line stored in its lexicon. */
  lemma LoadFileConsistent(st: Statics, t: Target, o: Opened)
    requires st.Dict(t).Some? && !o.Unresolved? && st.Consistent()
    ensures LoadFile(st, t, o).st.Consistent()
  {
    if o.Opened? && !Unmodified(st, o.key, o.stamp) {
      var acc := Ingested(st.Dict(t).value, st.Seen(t), []);
      var lines := Readable(o.content);
      IngestLexicon(acc, lines, st.hasAdd);
      IngestSeen(acc, lines, st.hasAdd);
      FillLinesEffect(st.Dict(t).value, lines);
      var r := LoadFile(st, t, o).st;
      forall s | s in r.Seen(t)
        ensures !IsBlank(s) && Normalize(s) in r.Dict(t).value.entries
      {
        if s !in st.Seen(t) {
          assert s in NonBlank(lines);
          assert Normalize(s) in Entries(lines);
        }
      }
      assert r.SeenStored(t);
      assert r.SeenStored(t.Other()) by {
        assert st.SeenStored(t.Other());
      }
      assert t == MainWords || t == StopWords;
    }
  }

  /**
   * Once the initial load is done, loading the same opened source a second
   * time changes nothing and reports nothing: its timestamp was recorded.
   */
  lemma LoadFileTwiceIsNoop(st: Statics, t: Target, o: Opened)
    requires st.Dict(t).Some? && !o.Unresolved? && st.hasAdd
    ensures var r := LoadFile(st, t, o).st; LoadFile(r, t, o) == FileLoad(r, [])
  {
  }

  // ---------------------------------------------------------------------------
  // Lists of sources

  /** The failure a list load ends with: the first name the class loader cannot resolve. */
  function FirstUnresolved(cp: Classpath, names: seq<string>): Option<Error>
    decreases |names|
  {
    if names == [] then None
    else if names[0] !in cp then Some(ResourceNotFound(names[0]))
    else FirstUnresolved(cp, names[1..])
  }

  datatype Loaded = Loaded(st: Statics, failure: Option<Error>)

  /**
   * The loop over the configured files of lexicon `t`: each name is resolved,
   * opened and loaded in turn; an unresolvable name throws and ends the loop,
   * leaving what the earlier files loaded in place.
   */
  function LoadFiles(st: Statics, t: Target, cp: Classpath, names: seq<string>): (r: Loaded)
    requires st.Dict(t).Some?
    ensures r.st.Dict(t).Some? && r.st.hasAdd == st.hasAdd
    ensures r.st.Dict(t.Other()) == st.Dict(t.Other()) && r.st.Seen(t.Other()) == st.Seen(t.Other())
    ensures r.failure == FirstUnresolved(cp, names)
    decreases |names|
  {
    if names == [] then Loaded(st, None)
    else
      var o := OpenFile(cp, names[0]);
      if o.Unresolved? then Loaded(st, Some(ResourceNotFound(names[0])))
      else LoadFiles(LoadFile(st, t, o).st, t, cp, names[1..])
  }

  /** A list load only adds: enabled entries stay enabled, ingested lines and recorded sources stay. */
  lemma {:induction false} LoadFilesGrows(st: Statics, t: Target, cp: Classpath, names: seq<string>)
    requires st.Dict(t).Some?
    ensures var r := LoadFiles(st, t, cp, names).st;
      && (forall w :: st.Dict(t).value.Contains(w) ==> r.Dict(t).value.Contains(w))
      && st.Seen(t) <= r.Seen(t)
      && st.lastModified.Keys <= r.lastModified.Keys
    decreases |names|
  {
    if names != [] {
      var o := OpenFile(cp, names[0]);
      if !o.Unresolved? {
        if o.Opened? && !Unmodified(st, o.key, o.stamp) {
          PartialReadKept(st, t, o);
        }
        LoadFilesGrows(LoadFile(st, t, o).st, t, cp, names[1..]);
      }
    }
  }

  /**
   * On the first load (before `hasAdd`), a file of the list that the loop
   * reaches and can open has every entry of its readable lines in the lexicon
   * afterwards.
   */
  lemma {:induction false} LoadFilesEntries(st: Statics, t: Target, cp: Classpath, names: seq<string>, i: nat)
    requires st.Dict(t).Some? && !st.hasAdd && i < |names|
    requires forall j :: 0 <= j <= i ==> names[j] in cp
    requires cp[names[i]].content.Some?
    ensures forall w :: w in Entries(Readable(cp[names[i]].content.value)) ==>
      LoadFiles(st, t, cp, names).st.Dict(t).value.Contains(w)
    decreases i
  {
    var o := OpenFile(cp, names[0]);
    var next := LoadFile(st, t, o).st;
    if i == 0 {
      PartialReadKept(st, t, o);
      LoadFilesGrows(next, t, cp, names[1..]);
    } else {
      assert forall j :: 0 <= j <= i - 1 ==> names[1..][j] == names[j + 1];
      LoadFilesEntries(next, t, cp, names[1..], i - 1);
    }
  }

  lemma {:induction false} LoadFilesConsistent(st: Statics, t: Target, cp: Classpath, names: seq<string>)
    requires st.Dict(t).Some? && st.Consistent()
    ensures LoadFiles(st, t, cp, names).st.Consistent()
    decreases |names|
  {
    if names != [] {
      var o := OpenFile(cp, names[0]);
      if !o.Unresolved? {
        LoadFileConsistent(st, t, o);
        LoadFilesConsistent(LoadFile(st, t, o).st, t, cp, names[1..]);
      }
    }
  }

  /** A class path on which two names resolving to one file report one timestamp. */
  predicate StampsAgree(cp: Classpath) {
    forall m, n :: m in cp && n in cp && cp[m].path == cp[n].path ==> cp[m].lastModified == cp[n].lastModified
  }

  /** Loading `name` again would be skipped (or, when no stream opens, do nothing). */
  predicate UpToDate(st: Statics, cp: Classpath, name: string) {
    name in cp && cp[name].content.Some? ==>
      Some(cp[name].path) in st.lastModified && cp[name].lastModified <= st.lastModified[Some(cp[name].path)]
  }

  /** Every name a list load reaches, up to the first unresolvable one, is up to date. */
  predicate AllUpToDate(st: Statics, cp: Classpath, names: seq<string>)
    decreases |names|
  {
    names == [] || names[0] !in cp || (UpToDate(st, cp, names[0]) && AllUpToDate(st, cp, names[1..]))
  }

  /** A reload over up-to-date sources changes nothing. */
  lemma {:induction false} UpToDateLoadIsNoop(st: Statics, t: Target, cp: Classpath, names: seq<string>)
    requires st.Dict(t).Some? && st.hasAdd && AllUpToDate(st, cp, names)
    ensures LoadFiles(st, t, cp, names).st == st
    decreases |names|
  {
    if names != [] && names[0] in cp {
      UpToDateLoadIsNoop(st, t, cp, names[1..]);
    }
  }

  /** A list load keeps every already up-to-date name up to date. */
  lemma {:induction false} LoadFilesKeepsUpToDate(st: Statics, t: Target, cp: Classpath, names: seq<string>, n: string)
    requires st.Dict(t).Some? && StampsAgree(cp) && UpToDate(st, cp, n)
    ensures UpToDate(LoadFiles(st, t, cp, names).st, cp, n)
    decreases |names|
  {
    if names != [] {
      var o := OpenFile(cp, names[0]);
      if !o.Unresolved? {
        LoadFilesKeepsUpToDate(LoadFile(st, t, o).st, t, cp, names[1..], n);
      }
    }
  }

  lemma {:induction false} LoadFilesKeepsAllUpToDate(st: Statics, t: Target, cp: Classpath, names: seq<string>, other: seq<string>)
    requires st.Dict(t).Some? && StampsAgree(cp) && AllUpToDate(st, cp, other)
    ensures AllUpToDate(LoadFiles(st, t, cp, names).st, cp, other)
    decreases |other|
  {
    if other != [] && other[0] in cp {
      LoadFilesKeepsUpToDate(st, t, cp, names, other[0]);
      LoadFilesKeepsAllUpToDate(st, t, cp, names, other[1..]);
    }
  }

  /** After a list load every name it reached is up to date. */
  lemma {:induction false} LoadFilesLeavesUpToDate(st: Statics, t: Target, cp: Classpath, names: seq<string>)
    requires st.Dict(t).Some? && StampsAgree(cp)
    ensures AllUpToDate(LoadFiles(st, t, cp, names).st, cp, names)
    decreases |names|
  {
    if names != [] && names[0] in cp {
      var o := OpenFile(cp, names[0]);
      var next := LoadFile(st, t, o).st;
      assert UpToDate(next, cp, names[0]);
      LoadFilesKeepsUpToDate(next, t, cp, names[1..], names[0]);
      LoadFilesLeavesUpToDate(next, t, cp, names[1..]);
    }
  }

  // ---------------------------------------------------------------------------
  // loadMainDict, loadStopWordDict, loadQuantifierDict, a reload cycle, construction

  /**
   * `loadMainDict`: the first call creates the main lexicon and, unless the
   * dictionary is disabled, loads the built-in source; every call then visits
   * the extension files.
   */
  function LoadMainDict(st: Statics, cfg: Configuration, cp: Classpath): (r: Loaded)
    ensures r.st.mainDict.Some?
  {
    var created :=
      if st.mainDict.Some? then st
      else
        var s0 := st.(mainDict := Some(Empty));
        if cfg.dicDisable then s0 else LoadFile(s0, MainWords, OpenBuiltIn(cp, cfg.mainDictionary)).st;
    LoadFiles(created, MainWords, cp, Names(cfg.extDictionaries))
  }

  /** `loadStopWordDict`: create the stop-word lexicon on first use, then visit the stop-word files. */
  function LoadStopWordDict(st: Statics, cfg: Configuration, cp: Classpath): (r: Loaded)
    ensures r.st.stopDict.Some?
  {
    var created := if st.stopDict.Some? then st else st.(stopDict := Some(Empty));
    LoadFiles(created, StopWords, cp, Names(cfg.extStopWordDictionaries))
  }

  /**
   * The built-in source is read at most once: after any `loadMainDict` the
   * main lexicon exists, so every later call only visits the extension files.
   */
  lemma BuiltInLoadedOnce(st: Statics, cfg: Configuration, cp: Classpath, later: Classpath)
    ensures var s1 := LoadMainDict(st, cfg, cp).st;
      LoadMainDict(s1, cfg, later) == LoadFiles(s1, MainWords, later, Names(cfg.extDictionaries))
  {
  }

  /**
   * On the first load every entry of the built-in source that was read is in
   * the main lexicon afterwards.
   */
  lemma BuiltInEntriesLoaded(st: Statics, cfg: Configuration, cp: Classpath)
    requires st.mainDict.None? && !st.hasAdd
    requires !cfg.dicDisable && OpenBuiltIn(cp, cfg.mainDictionary).Opened?
    ensures forall w :: w in Entries(Readable(cp[cfg.mainDictionary].content.value)) ==>
      LoadMainDict(st, cfg, cp).st.mainDict.value.Contains(w)
  {
    var s0 := st.(mainDict := Some(Empty));
    var o := OpenBuiltIn(cp, cfg.mainDictionary);
    var created := LoadFile(s0, MainWords, o).st;
    PartialReadKept(s0, MainWords, o);
    LoadFilesGrows(created, MainWords, cp, Names(cfg.extDictionaries));
  }

  /**
   * With the dictionary disabled, the first `loadMainDict` creates an empty
   * main lexicon and skips the built-in source; only the extension files are read.
   */
  lemma DisabledSkipsBuiltIn(st: Statics, cfg: Configuration, cp: Classpath)
    requires st.mainDict.None? && cfg.dicDisable
    ensures LoadMainDict(st, cfg, cp) == LoadFiles(st.(mainDict := Some(Empty)), MainWords, cp, Names(cfg.extDictionaries))
  {
  }

  /**
   * On the first `loadMainDict`, every extension file the loop reaches and can
   * open contributes each entry of its readable lines to the main lexicon.
   */
  lemma ExtensionEntriesLoaded(st: Statics, cfg: Configuration, cp: Classpath, i: nat)
    requires !st.hasAdd && i < |Names(cfg.extDictionaries)|
    requires forall j :: 0 <= j <= i ==> Names(cfg.extDictionaries)[j] in cp
    requires cp[Names(cfg.extDictionaries)[i]].content.Some?
    ensures forall w :: w in Entries(Readable(cp[Names(cfg.extDictionaries)[i]].content.value)) ==>
      LoadMainDict(st, cfg, cp).st.mainDict.value.Contains(w)
  {
    var created :=
      if st.mainDict.Some? then st
      else
        var s0 := st.(mainDict := Some(Empty));
        if cfg.dicDisable then s0 else LoadFile(s0, MainWords, OpenBuiltIn(cp, cfg.mainDictionary)).st;
    LoadFilesEntries(created, MainWords, cp, Names(cfg.extDictionaries), i);
  }

  /**
   * On the first `loadStopWordDict`, every stop-word file the loop reaches and
   * can open contributes each entry of its readable lines to the stop-word
   * lexicon (each file read as intended).
   */
  lemma StopWordEntriesLoaded(st: Statics, cfg: Configuration, cp: Classpath, i: nat)
    requires !st.hasAdd && i < |Names(cfg.extStopWordDictionaries)|
    requires forall j :: 0 <= j <= i ==> Names(cfg.extStopWordDictionaries)[j] in cp
    requires cp[Names(cfg.extStopWordDictionaries)[i]].content.Some?
    ensures forall w :: w in Entries(Readable(cp[Names(cfg.extStopWordDictionaries)[i]].content.value)) ==>
      LoadStopWordDict(st, cfg, cp).st.stopDict.value.Contains(w)
  {
    var created := if st.stopDict.Some? then st else st.(stopDict := Some(Empty));
    LoadFilesEntries(created, StopWords, cp, Names(cfg.extStopWordDictionaries), i);
  }

  /** One scheduled cycle:`loadMainDict` then `loadStopWordDict`; an exception ends the cycle and is swallowed. */
  function Reload(st: Statics, cfg: Configuration, cp: Classpath): Statics {
    var m := LoadMainDict(st, cfg, cp);
    if m.failure.Some? then m.st else LoadStopWordDict(m.st, cfg, cp).st
  }

  /**
   * A reload cycle run again over an unchanged class path changes nothing: every
   * source the first cycle reached is recorded with its current timestamp.
   */
  lemma ReloadTwiceIsNoop(st: Statics, cfg: Configuration, cp: Classpath)
    requires st.hasAdd && st.mainDict.Some? && st.stopDict.Some? && StampsAgree(cp)
    ensures Reload(Reload(st, cfg, cp), cfg, cp) == Reload(st, cfg, cp)
  {
    var ext := Names(cfg.extDictionaries);
    var stops := Names(cfg.extStopWordDictionaries);
    var m := LoadFiles(st, MainWords, cp, ext);
    LoadFilesLeavesUpToDate(st, MainWords, cp, ext);
    if m.failure.Some? {
      UpToDateLoadIsNoop(m.st, MainWords, cp, ext);
    } else {
      var s := LoadFiles(m.st, StopWords, cp, stops);
      LoadFilesKeepsAllUpToDate(m.st, StopWords, cp, stops, ext);
      LoadFilesLeavesUpToDate(m.st, StopWords, cp, stops);
      UpToDateLoadIsNoop(s.st, MainWords, cp, ext);
      UpToDateLoadIsNoop(s.st, StopWords, cp, stops);
    }
  }

  /**
   * `loadQuantifierDict`: a fresh empty lexicon filled from the built-in
   * quantifier source; a missing source throws.
   */
  function LoadQuantifier(cp: Classpath, name: string): (r: Result<Lexicon, Error>)
    ensures r.Failure? <==> !OpenBuiltIn(cp, name).Opened?
    ensures r.Failure? ==> r.error == QuantifierDictionaryNotFound
  {
    match OpenBuiltIn(cp, name)
    case Opened(_, _, content) => Success(FillLines(Empty, Readable(content)))
    case _ => Failure(QuantifierDictionaryNotFound)
  }

  /** The quantifier lexicon holds exactly the entries of the quantifier lines read, and nothing older. */
  lemma QuantifierHoldsItsLines(cp: Classpath, name: string)
    requires OpenBuiltIn(cp, name).Opened?
    ensures forall w :: LoadQuantifier(cp, name).value.Contains(w) <==>
      w in Entries(Readable(cp[name].content.value))
  {
    FillLinesEffect(Empty, Readable(cp[name].content.value));
  }

  /**
   * The constructor `Dictionary(cfg)`: load main, stop words and quantifiers,
   * then set `hasAdd`. An exception on the way leaves the loads done so far.
   */
  function Construct(st: Statics, cfg: Configuration, cp: Classpath): (r: Loaded)
    ensures r.failure.None? ==> r.st.hasAdd && r.st.mainDict.Some? && r.st.stopDict.Some?
    ensures r.failure.Some? ==> r.st.hasAdd == st.hasAdd
  {
    var m := LoadMainDict(st, cfg, cp);
    if m.failure.Some? then m
    else
      var s := LoadStopWordDict(m.st, cfg, cp);
      if s.failure.Some? then s
      else if LoadQuantifier(cp, cfg.quantifierDictionary).Failure? then Loaded(s.st, Some(QuantifierDictionaryNotFound))
      else Loaded(s.st.(hasAdd := true), None)
  }

  // ---------------------------------------------------------------------------
  // addWords and disableWords

  /** The entries a word list designates: each non-null word, normalised. */
  function Targets(words: seq<Option<string>>): set<string> {
    set w | w in words && w.Some? :: Normalize(w.value)
  }

  lemma TargetsCons(words: seq<Option<string>>)
    requires words != []
    ensures Targets(words) == (if words[0].Some? then {Normalize(words[0].value)} else {}) + Targets(words[1..])
  {
    assert forall w :: w in words <==> w == words[0] || w in words[1..];
  }

  /** The main lexicon after `addWords`: null elements are skipped. */
  function WithWordsAdded(lex: Lexicon, words: seq<Option<string>>): Lexicon
    decreases |words|
  {
    if words == [] then lex
    else WithWordsAdded(if words[0].Some? then lex.Fill(Normalize(words[0].value)) else lex, words[1..])
  }

  /** The main lexicon after `disableWords`: null elements are skipped. */
  function WithWordsDisabled(lex: Lexicon, words: seq<Option<string>>): Lexicon
    decreases |words|
  {
    if words == [] then lex
    else WithWordsDisabled(if words[0].Some? then lex.Disable(Normalize(words[0].value)) else lex, words[1..])
  }

  /** `addWords` enables exactly the (non-empty) normalised words and keeps every other entry as it was. */
  lemma {:induction false} WordsAddedEffect(lex: Lexicon, words: seq<Option<string>>)
    ensures WithWordsAdded(lex, words).entries.Keys == lex.entries.Keys + (set w | w in Targets(words) && |w| > 0)
    ensures forall w :: WithWordsAdded(lex, words).Contains(w) <==> lex.Contains(w) || (w in Targets(words) && |w| > 0)
    decreases |words|
  {
    if words != [] {
      WordsAddedEffect(if words[0].Some? then lex.Fill(Normalize(words[0].value)) else lex, words[1..]);
      TargetsCons(words);
    }
  }

  /** `disableWords` disables exactly the normalised words and removes no entry. */
  lemma {:induction false} WordsDisabledEffect(lex: Lexicon, words: seq<Option<string>>)
    ensures WithWordsDisabled(lex, words).entries.Keys == lex.entries.Keys
    ensures forall w :: WithWordsDisabled(lex, words).Contains(w) <==> lex.Contains(w) && w !in Targets(words)
    decreases |words|
  {
    if words != [] {
      WordsDisabledEffect(if words[0].Some? then lex.Disable(Normalize(words[0].value)) else lex, words[1..]);
      TargetsCons(words);
    }
  }

  // ---------------------------------------------------------------------------
  // The stop-word stream closed before it is read

  /**
   * What the stop-word loop of the source actually reads: it closes the
   * `FileInputStream` in the `finally` of the block that opens it, before the
   * reader is built, so the first `readLine()` throws.
   */
  function ReadAfterClose(c: Content): (r: Content)
    ensures Readable(r) == [] && Fails(r)
  {
    Content(c.lines, Some(0))
  }

  /**
   * As written, a modified stop-word file contributes no stop word and no
   * ingested line, yet its timestamp is recorded, so it is not even retried
   * until it changes again. Read as intended, every entry of its lines is a
   * stop word afterwards.
   */
  lemma StopWordsLostAsWritten(st: Statics, key: SourceKey, stamp: int, c: Content)
    requires st.stopDict.Some? && !Unmodified(st, key, stamp)
    ensures LoadFile(st, StopWords, Opened(key, stamp, ReadAfterClose(c))).st
         == st.(lastModified := st.lastModified[key := stamp])
    ensures forall w :: w in Entries(Readable(c)) ==>
      LoadFile(st, StopWords, Opened(key, stamp, c)).st.stopDict.value.Contains(w)
  {
    PartialReadKept(st, StopWords, Opened(key, stamp, c));
    var acc := Ingested(st.stopDict.value, st.stopSet, []);
    assert Ingest(acc, [], st.hasAdd) == acc;
  }

  /**
   * The stop-word loop as written. Besides closing each stream before reading
   * it, the loop declares `is` outside the loop, so once one file was opened a
   * later file that cannot be opened is not skipped: the opened, closed stream
   * is read instead, and that file's timestamp is recorded too.
   */
  function StopFilesAsWritten(st: Statics, cp: Classpath, names: seq<string>, streamOpened: bool): (r: Loaded)
    requires st.stopDict.Some?
    ensures r.st.stopDict.Some?
    ensures r.failure == FirstUnresolved(cp, names)
    decreases |names|
  {
    if names == [] then Loaded(st, None)
    else if names[0] !in cp then Loaded(st, Some(ResourceNotFound(names[0])))
    else
      var res := cp[names[0]];
      var hasStream := streamOpened || res.content.Some?;
      var o := if hasStream then Opened(Some(res.path), res.lastModified, ReadAfterClose(Content([], None))) else NotOpened;
      StopFilesAsWritten(LoadFile(st, StopWords, o).st, cp, names[1..], hasStream)
  }

  /**
   * As written, `loadStopWordDict` never adds a stop word nor an ingested
   * stop-word line, whatever the files hold; only timestamps change.
   */
  lemma {:induction false} StopFilesAsWrittenLoadNothing(st: Statics, cp: Classpath, names: seq<string>, streamOpened: bool)
    requires st.stopDict.Some?
    ensures var r := StopFilesAsWritten(st, cp, names, streamOpened).st;
      r == st.(lastModified := r.lastModified)
    decreases |names|
  {
    if names != [] && names[0] in cp {
      var res := cp[names[0]];
      var hasStream := streamOpened || res.content.Some?;
      var o := if hasStream then Opened(Some(res.path), res.lastModified, ReadAfterClose(Content([], None))) else NotOpened;
      if hasStream && !Unmodified(st, o.key, o.stamp) {
        StopWordsLostAsWritten(st, o.key, o.stamp, Content([], None));
      }
      StopFilesAsWrittenLoadNothing(LoadFile(st, StopWords, o).st, cp, names[1..], hasStream);
    }
  }

  /**
   * A stop-word file holding the line "the": as written the word is not a
   * stop word after the first load; read as intended it is.
   */
  lemma StopWordFileExample()
    ensures var cfg := Configuration("main.dic", "quantifier.dic", None, Some(["stopword.dic"]), false);
      var cp := map["stopword.dic" := Resource("/dic/stopword.dic", 1, Some(Content(["the"], None)))];
      var st := InitialStatics.(stopDict := Some(Empty));
      && !StopFilesAsWritten(st, cp, ["stopword.dic"], false).st.stopDict.value.Contains("the")
      && LoadStopWordDict(st, cfg, cp).st.stopDict.value.Contains("the")
  {
    var c := Content(["the"], None);
    var cp := map["stopword.dic" := Resource("/dic/stopword.dic", 1, Some(c))];
    var st := InitialStatics.(stopDict := Some(Empty));
    StopFilesAsWrittenLoadNothing(st, cp, ["stopword.dic"], false);
    var o := OpenFile(cp, "stopword.dic");
    PartialReadKept(st, StopWords, o);
    assert Readable(c) == ["the"];
    assert !IsBlank("the") by { BlankIffAllTrimmable("the"); }
    assert Normalize("the") == "the" by {
      assert TrimStart("the") == "the";
      assert TrimEnd("the") == "the";
    }
    assert "the" in Entries(Readable(c));
    assert ["stopword.dic"][1..] == [];
  }
}
