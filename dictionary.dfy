/**
 * The dictionary manager `org.wltea.analyzer.dic.Dictionary`. Its static fields
 * are one `Dictionary` object (one per process); the singleton it hands out is a
 * `DictionaryInstance`, whose one instance field is the quantifier lexicon. Each
 * method is proved against the pure definitions of module `Loading`.
 */
module Dic {
  import opened Wrappers
  import opened Text
  import opened Lexicons
  import opened Loading

  /** The object `new Dictionary(cfg)` allocates; it owns the quantifier lexicon. */
  class DictionaryInstance {
    var quantifierDict: Lexicon

    constructor ()
      ensures quantifierDict == Empty
    {
      quantifierDict := Empty;
    }

    /**
     * `loadQuantifierDict`: replace the quantifier lexicon by an empty one and
     * fill it from the built-in quantifier source; a missing source throws.
     */
    method LoadQuantifierDict(cp: Classpath, name: string) returns (failure: Option<Error>)
      modifies this
      ensures failure.None? <==> LoadQuantifier(cp, name).Success?
      ensures failure.Some? ==> failure.value == QuantifierDictionaryNotFound && quantifierDict == Empty
      ensures failure.None? ==> quantifierDict == LoadQuantifier(cp, name).value
    {
      quantifierDict := Empty;
      var o := OpenBuiltIn(cp, name);
      if !o.Opened? {
        return Some(QuantifierDictionaryNotFound);
      }
      ghost var lines := Readable(o.content);
      var i := 0;
      var reading := true;
      while reading
        invariant 0 <= i <= |lines|
        invariant !reading ==> i == |lines|
        invariant FillLines(quantifierDict, lines[i..]) == FillLines(Empty, lines)
        decreases |lines| - i + (if reading then 1 else 0)
      {
        match ReadLine(o.content, i)
        case Line(theWord) =>
          assert lines[i..][1..] == lines[i + 1..];
          if !IsBlank(theWord) {
            quantifierDict := quantifierDict.Fill(Normalize(theWord));
          }
          i := i + 1;
        case EndOfStream =>
          reading := false;
        case ReadFailure =>
          reading := false;   // IOException: logged, the lines filled so far stay
      }
      return None;
    }
  }

  /** The static state of `Dictionary` together with the singleton slot. */
  class Dictionary {
    var singleton: DictionaryInstance?
    var cfg: Option<Configuration>
    var mainDict: Option<Lexicon>
    var stopWordDict: Option<Lexicon>
    var dicLastModified: map<SourceKey, int>
    var dicExtSet: set<string>
    var dicStopSet: set<string>
    var hasAdd: bool

    /** The fields loading works on, as one value. */
    function Snapshot(): Statics
      reads this
    {
      Statics(mainDict, stopWordDict, dicLastModified, dicExtSet, dicStopSet, hasAdd)
    }

    /**
     * A singleton exists only once a construction finished, which set `hasAdd`
     * after creating both reloadable lexicons; every ingested line is stored.
     */
    ghost predicate Valid()
      reads this
    {
      && (singleton != null ==> hasAdd)
      && (hasAdd ==> cfg.Some? && mainDict.Some? && stopWordDict.Some?)
      && (mainDict.None? ==> dicExtSet == {})
      && (stopWordDict.None? ==> dicStopSet == {})
      && Snapshot().Consistent()
    }

    /** The state before any call: every static field at its initial value. */
    constructor ()
      ensures Valid() && singleton == null && cfg == None && Snapshot() == InitialStatics
    {
      singleton := null;
      cfg := None;
      mainDict := None;
      stopWordDict := None;
      dicLastModified := map[];
      dicExtSet := {};
      dicStopSet := {};
      hasAdd := false;
    }

    /**
     * `initial`: the first call constructs the singleton; every later call
     * returns that same object and changes nothing. An exception during
     * construction leaves the slot empty and the loads done so far in place.
     */
    method Initial(c: Configuration, cp: Classpath) returns (r: Result<DictionaryInstance, Error>)
      requires Valid()
      modifies this
      ensures Valid()
      ensures old(singleton) != null ==>
        && r == Success(old(singleton)) && singleton == old(singleton)
        && cfg == old(cfg) && Snapshot() == old(Snapshot())
      ensures old(singleton) == null ==>
        && cfg == Some(c)
        && Snapshot() == Construct(old(Snapshot()), c, cp).st
        && (r.Success? <==> Construct(old(Snapshot()), c, cp).failure.None?)
        && (r.Failure? ==> r == Failure(Construct(old(Snapshot()), c, cp).failure.value) && singleton == null)
        && (r.Success? ==>
              && singleton == r.value && fresh(r.value)
              && r.value.quantifierDict == LoadQuantifier(cp, c.quantifierDictionary).value)
    {
      if singleton != null {
        return Success(singleton);
      }
      r := NewDictionary(c, cp);
      if r.Success? {
        singleton := r.value;
      }
      // a configured dicUpdateMin schedules ReloadCycle here
    }

    /**
     * The constructor `Dictionary(cfg)`: record the configuration, load main,
     * stop words and quantifiers, then set `hasAdd`.
     */
    method NewDictionary(c: Configuration, cp: Classpath) returns (r: Result<DictionaryInstance, Error>)
      requires Valid() && singleton == null
      modifies this
      ensures Valid() && singleton == null && cfg == Some(c)
      ensures Snapshot() == Construct(old(Snapshot()), c, cp).st
      ensures r.Success? <==> Construct(old(Snapshot()), c, cp).failure.None?
      ensures r.Failure? ==> r == Failure(Construct(old(Snapshot()), c, cp).failure.value)
      ensures r.Success? ==> fresh(r.value) && r.value.quantifierDict == LoadQuantifier(cp, c.quantifierDictionary).value
    {
      ghost var s0 := Snapshot();
      ghost var k := Construct(s0, c, cp);
      cfg := Some(c);
      var failure := LoadMainDict(cp);
      ghost var m := Loading.LoadMainDict(s0, c, cp);
      if failure.Some? {
        assert k == m;
        return Failure(failure.value);
      }
      failure := LoadStopWordDict(cp);
      ghost var sw := Loading.LoadStopWordDict(m.st, c, cp);
      if failure.Some? {
        assert k == sw;
        return Failure(failure.value);
      }
      var d := new DictionaryInstance();
      failure := d.LoadQuantifierDict(cp, c.quantifierDictionary);
      if failure.Some? {
        assert k == Loaded(sw.st, Some(QuantifierDictionaryNotFound));
        return Failure(failure.value);
      }
      assert k == Loaded(sw.st.(hasAdd := true), None);
      hasAdd := true;
      return Success(d);
    }

    /** `getSingleton`: the constructed singleton, or the uninitialised-state error before `initial`. */
    method GetSingleton() returns (r: Result<DictionaryInstance, Error>)
      ensures singleton == null ==> r == Failure(UninitializedState)
      ensures singleton != null ==> r == Success(singleton)
    {
      if singleton == null {
        return Failure(UninitializedState);
      }
      return Success(singleton);
    }

    /**
     * `addWords`: a null collection does nothing; every non-null word is filled
     * into the main lexicon as `trim().toLowerCase()`.
     */
    method AddWords(words: Option<seq<Option<string>>>)
      requires Valid() && singleton != null
      modifies this
      ensures Valid()
      ensures singleton == old(singleton) && cfg == old(cfg)
      ensures Snapshot() == old(Snapshot()).(mainDict := mainDict)
      ensures mainDict == Some(if words.None? then old(mainDict).value else WithWordsAdded(old(mainDict).value, words.value))
    {
      if words.Some? {
        var ws := words.value;
        ghost var start := mainDict.value;
        for i := 0 to |ws|
          invariant mainDict.Some? && WithWordsAdded(mainDict.value, ws[i..]) == WithWordsAdded(start, ws)
          modifies this`mainDict
        {
          assert ws[i..][1..] == ws[i + 1..];
          if ws[i].Some? {
            mainDict := Some(mainDict.value.Fill(Normalize(ws[i].value)));
          }
        }
        WordsAddedEffect(start, ws);
      }
    }

    /**
     * `disableWords`: a null collection does nothing; every non-null word is
     * disabled in the main lexicon as `trim().toLowerCase()`.
     */
    method DisableWords(words: Option<seq<Option<string>>>)
      requires Valid() && singleton != null
      modifies this
      ensures Valid()
      ensures singleton == old(singleton) && cfg == old(cfg)
      ensures Snapshot() == old(Snapshot()).(mainDict := mainDict)
      ensures mainDict == Some(if words.None? then old(mainDict).value else WithWordsDisabled(old(mainDict).value, words.value))
    {
      if words.Some? {
        var ws := words.value;
        ghost var start := mainDict.value;
        for i := 0 to |ws|
          invariant mainDict.Some? && WithWordsDisabled(mainDict.value, ws[i..]) == WithWordsDisabled(start, ws)
          modifies this`mainDict
        {
          assert ws[i..][1..] == ws[i + 1..];
          if ws[i].Some? {
            mainDict := Some(mainDict.value.Disable(Normalize(ws[i].value)));
          }
        }
        WordsDisabledEffect(start, ws);
      }
    }

    /** `isStopWord`: the characters `begin .. begin + length` are an enabled stop word. */
    function IsStopWord(chars: string, begin: nat, length: nat): (r: bool)
      reads this
      requires Valid() && singleton != null
      requires begin + length <= |chars|
      ensures r <==> stopWordDict.value.Contains(chars[begin..begin + length])
    {
      stopWordDict.value.Contains(chars[begin..begin + length])
    }

    /** The `readLine` loop of `loadToMain`: record each new raw line in `dicExtSet` (and in the report once `hasAdd`), fill its normalised form. */
    method ReadMainLines(c: Content) returns (updateDic: seq<string>)
      requires mainDict.Some?
      modifies this`mainDict, this`dicExtSet
      ensures mainDict.Some?
      ensures Ingested(mainDict.value, dicExtSet, updateDic) == Ingest(Ingested(old(mainDict).value, old(dicExtSet), []), Readable(c), hasAdd)
    {
      ghost var lines := Readable(c);
      ghost var start := Ingested(mainDict.value, dicExtSet, []);
      updateDic := [];
      var i := 0;
      var reading := true;
      while reading
        invariant 0 <= i <= |lines|
        invariant !reading ==> i == |lines|
        invariant mainDict.Some?
        invariant Ingest(Ingested(mainDict.value, dicExtSet, updateDic), lines[i..], hasAdd) == Ingest(start, lines, hasAdd)
        decreases |lines| - i + (if reading then 1 else 0)
      {
        match ReadLine(c, i)
        case Line(theWord) =>
          ghost var acc := Ingested(mainDict.value, dicExtSet, updateDic);
          assert lines[i..][1..] == lines[i + 1..];
          assert Ingest(acc, lines[i..], hasAdd) == Ingest(IngestLine(acc, theWord, hasAdd), lines[i + 1..], hasAdd);
          if !IsBlank(theWord) {
            if theWord !in dicExtSet {
              dicExtSet := dicExtSet + {theWord};
              if hasAdd {
                updateDic := updateDic + [theWord];
              }
            }
            mainDict := Some(mainDict.value.Fill(Normalize(theWord)));
          }
          assert Ingested(mainDict.value, dicExtSet, updateDic) == IngestLine(acc, theWord, hasAdd);
          i := i + 1;
        case EndOfStream =>
          reading := false;
        case ReadFailure =>
          reading := false;   // IOException: logged, the lines loaded so far stay
      }
    }

    /**
     * `loadToMain`: load one source into the main lexicon. `innerDic` selects
     * the built-in resource; any other name is resolved as a file, and an
     * unknown name throws. Returns the lines reported as new.
     */
    method LoadToMain(cp: Classpath, name: string, innerDic: bool) returns (failure: Option<Error>, updated: seq<string>)
      requires Valid() && mainDict.Some?
      modifies this
      ensures Valid() && singleton == old(singleton) && cfg == old(cfg)
      ensures var o := if innerDic then OpenBuiltIn(cp, name) else OpenFile(cp, name);
        if o.Unresolved? then
          failure == Some(ResourceNotFound(name)) && updated == [] && Snapshot() == old(Snapshot())
        else
          failure == None && FileLoad(Snapshot(), updated) == LoadFile(old(Snapshot()), MainWords, o)
    {
      var o := if innerDic then OpenBuiltIn(cp, name) else OpenFile(cp, name);
      if o.Unresolved? {
        return Some(ResourceNotFound(name)), [];
      }
      if o.NotOpened? {
        return None, [];
      }
      if hasAdd && o.key in dicLastModified && o.stamp <= dicLastModified[o.key] {
        return None, [];
      }
      var updateDic := ReadMainLines(o.content);
      dicLastModified := dicLastModified[o.key := o.stamp];
      LoadFileConsistent(old(Snapshot()), MainWords, o);
      return None, updateDic;
    }

    /** The `readLine` loop of `loadStopWordDict`: fill each line's normalised form, record each new raw line in `dicStopSet` (and in the report once `hasAdd`). */
    method ReadStopLines(c: Content) returns (updateDic: seq<string>)
      requires stopWordDict.Some?
      modifies this`stopWordDict, this`dicStopSet
      ensures stopWordDict.Some?
      ensures Ingested(stopWordDict.value, dicStopSet, updateDic) == Ingest(Ingested(old(stopWordDict).value, old(dicStopSet), []), Readable(c), hasAdd)
    {
      ghost var lines := Readable(c);
      ghost var start := Ingested(stopWordDict.value, dicStopSet, []);
      updateDic := [];
      var i := 0;
      var reading := true;
      while reading
        invariant 0 <= i <= |lines|
        invariant !reading ==> i == |lines|
        invariant stopWordDict.Some?
        invariant Ingest(Ingested(stopWordDict.value, dicStopSet, updateDic), lines[i..], hasAdd) == Ingest(start, lines, hasAdd)
        decreases |lines| - i + (if reading then 1 else 0)
      {
        match ReadLine(c, i)
        case Line(theWord) =>
          ghost var acc := Ingested(stopWordDict.value, dicStopSet, updateDic);
          assert lines[i..][1..] == lines[i + 1..];
          assert Ingest(acc, lines[i..], hasAdd) == Ingest(IngestLine(acc, theWord, hasAdd), lines[i + 1..], hasAdd);
          if !IsBlank(theWord) {
            stopWordDict := Some(stopWordDict.value.Fill(Normalize(theWord)));
            if theWord !in dicStopSet {
              dicStopSet := dicStopSet + {theWord};
              if hasAdd {
                updateDic := updateDic + [theWord];
              }
            }
          }
          assert Ingested(stopWordDict.value, dicStopSet, updateDic) == IngestLine(acc, theWord, hasAdd);
          i := i + 1;
        case EndOfStream =>
          reading := false;
        case ReadFailure =>
          reading := false;
      }
    }

    /**
     * The body of the stop-word loop for one opened file: freshness skip, read
     * loop, timestamp record. The stream is read as intended (see
     * `Loading.ReadAfterClose` for what the source does).
     */
    method LoadStopFile(o: Opened) returns (updated: seq<string>)
      requires Valid() && stopWordDict.Some? && !o.Unresolved?
      modifies this
      ensures Valid() && singleton == old(singleton) && cfg == old(cfg)
      ensures FileLoad(Snapshot(), updated) == LoadFile(old(Snapshot()), StopWords, o)
    {
      if o.NotOpened? {
        return [];
      }
      if hasAdd && o.key in dicLastModified && o.stamp <= dicLastModified[o.key] {
        return [];
      }
      var updateDic := ReadStopLines(o.content);
      dicLastModified := dicLastModified[o.key := o.stamp];
      LoadFileConsistent(old(Snapshot()), StopWords, o);
      return updateDic;
    }

    /**
     * `loadMainDict`: create the main lexicon and load the built-in source on
     * the first call only (unless disabled), then visit every extension file.
     */
    method LoadMainDict(cp: Classpath) returns (failure: Option<Error>)
      requires Valid() && cfg.Some?
      modifies this
      ensures Valid() && singleton == old(singleton) && cfg == old(cfg)
      ensures Loaded(Snapshot(), failure) == Loading.LoadMainDict(old(Snapshot()), cfg.value, cp)
    {
      var c := cfg.value;
      if mainDict.None? {
        mainDict := Some(Empty);
        if !c.dicDisable {
          var _, _ := LoadToMain(cp, c.mainDictionary, true);
        }
      }
      ghost var created := Snapshot();
      var extDictFiles := Names(c.extDictionaries);
      for i := 0 to |extDictFiles|
        invariant Valid() && mainDict.Some? && singleton == old(singleton) && cfg == old(cfg)
        invariant Loading.LoadFiles(Snapshot(), MainWords, cp, extDictFiles[i..])
               == Loading.LoadFiles(created, MainWords, cp, extDictFiles)
      {
        assert extDictFiles[i..][1..] == extDictFiles[i + 1..];
        var updated;
        failure, updated := LoadToMain(cp, extDictFiles[i], false);
        if failure.Some? {
          return;
        }
      }
      return None;
    }

    /** `loadStopWordDict`: create the stop-word lexicon on first use, then visit every stop-word file. */
    method LoadStopWordDict(cp: Classpath) returns (failure: Option<Error>)
      requires Valid() && cfg.Some?
      modifies this
      ensures Valid() && singleton == old(singleton) && cfg == old(cfg)
      ensures Loaded(Snapshot(), failure) == Loading.LoadStopWordDict(old(Snapshot()), cfg.value, cp)
    {
      if stopWordDict.None? {
        stopWordDict := Some(Empty);
      }
      ghost var created := Snapshot();
      var files := Names(cfg.value.extStopWordDictionaries);
      for i := 0 to |files|
        invariant Valid() && stopWordDict.Some? && singleton == old(singleton) && cfg == old(cfg)
        invariant Loading.LoadFiles(Snapshot(), StopWords, cp, files[i..])
               == Loading.LoadFiles(created, StopWords, cp, files)
      {
        assert files[i..][1..] == files[i + 1..];
        var o := OpenFile(cp, files[i]);
        if o.Unresolved? {
          return Some(ResourceNotFound(files[i]));
        }
        var _ := LoadStopFile(o);
      }
      return None;
    }

    /**
     * One run of the scheduled task: `loadMainDict` then `loadStopWordDict`;
     * an exception ends the run and is swallowed.
     */
    method ReloadCycle(cp: Classpath)
      requires Valid() && singleton != null
      modifies this
      ensures Valid() && singleton == old(singleton) && cfg == old(cfg)
      ensures Snapshot() == Reload(old(Snapshot()), cfg.value, cp)
    {
      var failure := LoadMainDict(cp);
      if failure.None? {
        failure := LoadStopWordDict(cp);
      }
    }
  }

  /**
   * The singleton life cycle on a fresh process: `getSingleton` fails before
   * `initial`; once `initial` succeeded, a second `initial` and `getSingleton`
   * return the very same object.
   */
  method SingletonLifecycle(c: Configuration, cp: Classpath)
    returns (before: Result<DictionaryInstance, Error>, first: Result<DictionaryInstance, Error>,
             second: Result<DictionaryInstance, Error>, after: Result<DictionaryInstance, Error>)
    ensures before == Failure(UninitializedState)
    ensures first.Success? ==> second == first && after == first
    ensures first.Success? <==> Construct(InitialStatics, c, cp).failure.None?
  {
    var dictionary := new Dictionary();
    before := dictionary.GetSingleton();
    first := dictionary.Initial(c, cp);
    second := dictionary.Initial(c, cp);
    after := dictionary.GetSingleton();
  }
}
