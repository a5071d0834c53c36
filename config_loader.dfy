/** The configuration store of backend/config_loader.py: a document of
    sections, each a dict of string keys and values, kept in memory and
    persisted as a whole to one JSON or INI file chosen by the file suffix.

    The file system is the `disk` field of a loader (None: no file). What a
    parser makes of the file is not computed here: it is handed to the loading
    methods as a `Parsed` value, the outcome of `json.load` or of
    `ConfigParser.read` on whatever the file holds. */
module ConfigStore {
  import opened Wrappers
  import opened OrderedDict
  import opened PyText

  /** A top-level entry: a section (a dict of keys to values) or, in a JSON
      file, any value that is not an object (a string, number, list, ...). */
  datatype Entry = Sec(items: Dict<string, string>) | Scalar(text: string)

  /** The configuration document: section name to entry, in insertion order. */
  type Doc = Dict<string, Entry>

  datatype Format = Json | Ini | Unsupported(suffix: string)

  datatype ConfigError =
    | UnsupportedFormat(suffix: string)  // the ValueError of loading or saving
    | NotAMapping(section: string)       // a key assigned into, or read out of, a non-dict entry

  /** The content of an INI parser: section name to key to value. */
  type IniTable = Dict<string, Dict<string, string>>

  /** The configuration file: the document last written as JSON, the parser
      content last written as INI, or a file this loader did not write. */
  datatype Stored = JsonFile(doc: Doc) | IniFile(table: IniTable) | Foreign

  // ---------------------------------------------------------------------
  // Paths and format dispatch

  /** The index of the last `c` in `s`, or -1 (`str.rfind`). */
  function LastIndexOf(s: string, c: char): (i: int)
    ensures -1 <= i < |s|
    ensures i >= 0 ==> s[i] == c
    ensures forall j :: i < j < |s| ==> s[j] != c
  {
    if s == [] then -1
    else if s[|s| - 1] == c then |s| - 1
    else LastIndexOf(s[..|s| - 1], c)
  }

  /** `PurePath.name`: the last `/`-separated component. */
  function FileName(path: string): string
  {
    path[LastIndexOf(path, '/') + 1..]
  }

  /** The file name is how the path ends, and holds no slash. */
  lemma FileNameEnds(path: string)
    ensures var name := FileName(path);
            |name| <= |path| && name == path[|path| - |name|..] && '/' !in name
  {
  }

  /** `PurePath.suffix`: from the last dot of the name on, provided that dot
      neither starts nor ends the name; otherwise empty. A non-empty suffix
      is how the path ends. */
  function Suffix(path: string): (x: string)
    ensures x == [] || (|x| >= 2 && x[0] == '.' && '.' !in x[1..] && '/' !in x)
    ensures x != [] ==> |x| <= |path| && path[|path| - |x|..] == x
  {
    var name := FileName(path);
    var i := LastIndexOf(name, '.');
    if 0 < i < |name| - 1 then
      FileNameEnds(path);
      assert name[i..] == path[|path| - |name| + i..];
      name[i..]
    else ""
  }

  /** The format `_load_config` and `_save_config` choose for a path. */
  function FormatOf(path: string): Format
  {
    var ext := Lower(Suffix(path));
    if ext == ".json" then Json else if ext == ".ini" then Ini else Unsupported(Suffix(path))
  }

  /** The file `ConfigLoader()` uses when given no path. */
  function ConfigPathFor(configPath: Option<string>, rootDir: string): string
  {
    match configPath
    case Some(p) => p
    case None => rootDir + "/config/default.ini"
  }

  lemma {:induction false} LastIndexOfAppend(s: string, t: string, c: char)
    requires c !in t
    ensures LastIndexOf(s + t, c) == LastIndexOf(s, c)
  {
    if t != [] {
      var u := s + t;
      assert u[..|u| - 1] == s + t[..|t| - 1];
      assert u[|u| - 1] == t[|t| - 1];
      LastIndexOfAppend(s, t[..|t| - 1], c);
    } else {
      assert s + t == s;
    }
  }

  /** The last `c` is the one with no `c` after it. */
  lemma LastIndexOfIs(s: string, c: char, i: nat)
    requires i < |s| && s[i] == c
    requires forall j :: i < j < |s| ==> s[j] != c
    ensures LastIndexOf(s, c) == i
  {
  }

  /** A file name ending in an extension that has one leading dot has that
      extension as its suffix, whatever the directories before it. */
  lemma SuffixOfAppended(base: string, ext: string)
    requires base != [] && base[|base| - 1] != '/'
    requires |ext| >= 2 && ext[0] == '.' && '.' !in ext[1..] && '/' !in ext
    ensures Suffix(base + ext) == ext
  {
    var stem := FileName(base);
    assert FileName(base + ext) == stem + ext && stem != [] by {
      FileNameOfAppended(base, ext);
    }
    assert LastIndexOf(stem + ext, '.') == |stem| by {
      forall j | |stem| < j < |stem + ext| ensures (stem + ext)[j] != '.' {
        assert (stem + ext)[j] == ext[1..][j - |stem| - 1];
      }
      LastIndexOfIs(stem + ext, '.', |stem|);
    }
    assert (stem + ext)[|stem|..] == ext;
  }

  /** Appending a component without a slash extends the file name. */
  lemma FileNameOfAppended(base: string, ext: string)
    requires base != [] && base[|base| - 1] != '/'
    requires '/' !in ext
    ensures FileName(base + ext) == FileName(base) + ext
    ensures FileName(base) != []
  {
    LastIndexOfAppend(base, ext, '/');
    var k := LastIndexOf(base, '/');
    assert (base + ext)[k + 1..] == base[k + 1..] + ext;
  }

  /** Dispatch looks only at the lower-cased suffix: `.JSON`, `.Json` and
      `.json` all select JSON, `.INI` and `.ini` select INI, and every other
      extension is refused under its own spelling. */
  lemma DispatchIgnoresCase(base: string, ext: string)
    requires base != [] && base[|base| - 1] != '/'
    requires |ext| >= 2 && ext[0] == '.' && '.' !in ext[1..] && '/' !in ext
    ensures Lower(ext) == ".json" ==> FormatOf(base + ext) == Json
    ensures Lower(ext) == ".ini" ==> FormatOf(base + ext) == Ini
    ensures Lower(ext) != ".json" && Lower(ext) != ".ini" ==> FormatOf(base + ext) == Unsupported(ext)
  {
    SuffixOfAppended(base, ext);
  }

  /** `config.JSON` and `config.json` are both JSON files. */
  lemma UpperCaseJsonSuffix(base: string)
    requires base != [] && base[|base| - 1] != '/'
    ensures FormatOf(base + ".JSON") == FormatOf(base + ".json") == Json
  {
    assert '.' !in ".JSON"[1..] && '/' !in ".JSON";
    assert '.' !in ".json"[1..] && '/' !in ".json";
    assert Lower(".JSON") == ".json";
    assert Lower(".json") == ".json";
    DispatchIgnoresCase(base, ".JSON");
    DispatchIgnoresCase(base, ".json");
  }

  /** A file name with no dot, whose only dot leads it (`config/.json`), or
      that ends in a dot has no suffix, and loading or saving it is refused
      with an empty suffix. A dot in a directory name does not count. */
  lemma NoSuffix(path: string)
    requires var name := FileName(path);
             || '.' !in name
             || (name[0] == '.' && '.' !in name[1..])
             || name[|name| - 1] == '.'
    ensures Suffix(path) == [] && FormatOf(path) == Unsupported([])
  {
    var name := FileName(path);
    if '.' in name {
      if name[0] == '.' && '.' !in name[1..] {
        forall j | 0 < j < |name| ensures name[j] != '.' {
          assert name[j] == name[1..][j - 1];
        }
        LastIndexOfIs(name, '.', 0);
      } else {
        LastIndexOfIs(name, '.', |name| - 1);
      }
    }
  }

  /** Without an explicit path the loader uses an INI file. */
  lemma DefaultPathIsIni(rootDir: string)
    ensures FormatOf(ConfigPathFor(None, rootDir)) == Ini
  {
    var base := rootDir + "/config/default";
    assert rootDir + "/config/default.ini" == base + ".ini";
    assert base[|base| - 1] == 't';
    assert '.' !in ".ini"[1..] && '/' !in ".ini";
    assert Lower(".ini") == ".ini";
    DispatchIgnoresCase(base, ".ini");
  }

  // ---------------------------------------------------------------------
  // The document

  /** Every entry is a section: what an INI file can hold. */
  predicate AllSections(doc: seq<(string, Entry)>)
  {
    forall i :: 0 <= i < |doc| ==> doc[i].1.Sec?
  }

  /** The sections of the document `_create_default_config` builds. */
  function DefaultApp(): Dict<string, string>
  {
    [("name", "ModuKit"), ("version", "0.1.0"), ("debug", "false"), ("theme", "default"), ("language", "zh_CN")]
  }

  function DefaultServer(): Dict<string, string>
  {
    [("host", "127.0.0.1"), ("port", "5000")]
  }

  function DefaultModules(): Dict<string, string>
  {
    [("enabled", "file_tools,text_tools")]
  }

  /** The document `_create_default_config` builds. */
  function DefaultConfig(): Doc
  {
    [("app", Sec(DefaultApp())), ("server", Sec(DefaultServer())), ("modules", Sec(DefaultModules()))]
  }

  /** The default has exactly the sections app, server and modules, in that
      order, and each of them is a section. */
  lemma DefaultConfigShape()
    ensures Keys(DefaultConfig()) == ["app", "server", "modules"]
    ensures AllSections(DefaultConfig())
    ensures Get(DefaultConfig(), "server") == Some(Sec(DefaultServer()))
  {
    assert DefaultConfig()[1].0 == "server";
    GetAt(DefaultConfig(), 1);
  }

  /** `config[section][key]`, or `default` when the section is missing, the
      key is missing, or the entry is not a dict (the KeyError and TypeError
      that `get` catches). */
  function Lookup(doc: Doc, section: string, key: string, default: string): string
  {
    match Get<string, Entry>(doc, section)
    case Some(Sec(items)) => (match Get(items, key) case Some(v) => v case None => default)
    case _ => default
  }

  /** The dict `set` assigns into: the section's own dict, or the empty
      dict it creates for a missing section. */
  function ItemsOf(doc: Doc, section: string): Dict<string, string>
  {
    match Get<string, Entry>(doc, section)
    case Some(Sec(items)) => items
    case _ => []
  }

  /** The document after `set`: the section is created empty when missing,
      then the key is assigned. Assigning into a non-dict entry raises. */
  function Assign(doc: Doc, section: string, key: string, value: string): Result<Doc, ConfigError>
  {
    match Get<string, Entry>(doc, section)
    case Some(Scalar(_)) => Failure(NotAMapping(section))
    case _ => Success(Put(doc, section, Sec(Put(ItemsOf(doc, section), key, value))))
  }

  /** Assigning fails exactly when the section holds a non-dict value. */
  lemma AssignFailure(doc: Doc, section: string, key: string, value: string)
    ensures Assign(doc, section, key, value).Failure? <==> Get(doc, section).Some? && Get(doc, section).value.Scalar?
  {
  }

  /** After a `set` that succeeds, `get` returns the value just set, also
      for a section that was missing. */
  lemma GetAfterSet(doc: Doc, section: string, key: string, value: string, default: string)
    ensures Assign(doc, section, key, value).Success? ==>
              Lookup(Assign(doc, section, key, value).value, section, key, default) == value
  {
    if Assign(doc, section, key, value).Success? {
      var items := Put(ItemsOf(doc, section), key, value);
      assert Get(Put(doc, section, Sec(items)), section) == Some(Sec(items));
      assert Get(items, key) == Some(value);
    }
  }

  /** `set` touches one entry: every other section, and every other key of
      the section set, reads as before; the section list only grows, at the
      end, by the section set when it was missing. */
  lemma SetChangesOneEntry(doc: Doc, section: string, key: string, value: string)
    requires Assign(doc, section, key, value).Success?
    ensures var doc' := Assign(doc, section, key, value).value;
      && (forall s :: s != section ==> Get(doc', s) == Get(doc, s))
      && (forall k, d :: k != key ==> Lookup(doc', section, k, d) == Lookup(doc, section, k, d))
      && Keys(doc') == if section in Keys(doc) then Keys(doc) else Keys(doc) + [section]
  {
    var doc' := Assign(doc, section, key, value).value;
    assert doc' == Put(doc, section, Sec(Put(ItemsOf(doc, section), key, value)));
    forall k, d | k != key ensures Lookup(doc', section, k, d) == Lookup(doc, section, k, d) {
      OtherKeyUnchanged(doc, section, key, value, k, d);
    }
  }

  lemma OtherKeyUnchanged(doc: Doc, section: string, key: string, value: string, k: string, d: string)
    requires Assign(doc, section, key, value).Success? && k != key
    ensures Lookup(Assign(doc, section, key, value).value, section, k, d) == Lookup(doc, section, k, d)
  {
    var old_items := ItemsOf(doc, section);
    var items := Put(old_items, key, value);
    assert Get(Assign(doc, section, key, value).value, section) == Some(Sec(items));
    assert Get(items, k) == Get(old_items, k);
    if Get(doc, section).None? {
      assert Get(old_items, k) == None;
    }
  }

  /** Assigning into a document of sections leaves a document of sections. */
  lemma AssignKeepsSections(doc: Doc, section: string, key: string, value: string)
    requires AllSections(doc)
    ensures Assign(doc, section, key, value).Success?
    ensures AllSections(Assign(doc, section, key, value).value)
  {
    if section in Keys(doc) {
      var i := IndexOf(doc, section);
      GetAt(doc, i);
    }
    PutPairs(doc, section, Sec(Put(ItemsOf(doc, section), key, value)));
  }

  /** `set` as the source performs it, first creating a missing section and
      then assigning into the section found, is `Assign`. */
  lemma SetInTwoSteps(doc: Doc, section: string, key: string, value: string)
    requires Assign(doc, section, key, value).Success?
    ensures var doc1 := if section !in Keys(doc) then Put(doc, section, Sec([])) else doc;
      Get(doc1, section).Some? && Get(doc1, section).value.Sec?
      && Put(doc1, section, Sec(Put(Get(doc1, section).value.items, key, value)))
         == Assign(doc, section, key, value).value
  {
    if section !in Keys(doc) {
      var e: Dict<string, string> := [];
      var doc1 := Put(doc, section, Sec(e));
      assert Get(doc1, section) == Some(Sec(e));
      assert ItemsOf(doc, section) == e;
      PutTwice(doc, section, Sec(e), Sec(Put(e, key, value)));
    }
  }

  /** Under the INI format, a successful `set` keeps the document one of
      sections, so saving it succeeds. */
  lemma AssignConverts(fmt: Format, doc: Doc, section: string, key: string, value: string)
    requires fmt == Ini ==> AllSections(doc)
    requires Assign(doc, section, key, value).Success?
    ensures fmt == Ini ==> AllSections(Assign(doc, section, key, value).value)
    ensures !fmt.Unsupported? ==> Render(fmt, Assign(doc, section, key, value).value).Success?
  {
    if fmt == Ini {
      AssignKeepsSections(doc, section, key, value);
    }
  }

  // ---------------------------------------------------------------------
  // INI conversion

  /** The document `_load_ini_config` builds from the parser: one section
      per parser section, holding that section's keys and values. */
  function IniDoc(t: IniTable): (doc: Doc)
    ensures |doc| == |t| && AllSections(doc)
    ensures forall i :: 0 <= i < |t| ==> doc[i] == (t[i].0, Sec(t[i].1))
  {
    var doc := seq(|t|, i requires 0 <= i < |t| => (t[i].0, Sec(t[i].1)));
    assert UniqueKeys(doc) by {
      forall i, j | 0 <= i < j < |doc| ensures KeyAt(doc, i) != KeyAt(doc, j) {
        assert KeyAt(t, i) != KeyAt(t, j);
      }
    }
    doc
  }

  /** The parser content `_save_config` fills from a document of sections:
      every section with every value as `str(value)`, which leaves a string
      unchanged. */
  function Sections(doc: Doc): (t: IniTable)
    requires AllSections(doc)
    ensures |t| == |doc|
    ensures forall i :: 0 <= i < |doc| ==> t[i] == (doc[i].0, doc[i].1.items)
  {
    var t := seq(|doc|, i requires 0 <= i < |doc| => (doc[i].0, doc[i].1.items));
    assert UniqueKeys(t) by {
      forall i, j | 0 <= i < j < |t| ensures KeyAt(t, i) != KeyAt(t, j) {
        assert KeyAt(doc, i) != KeyAt(doc, j);
      }
    }
    t
  }

  /** The position of the first entry that is not a section. */
  function FirstScalar(doc: seq<(string, Entry)>): (i: nat)
    requires !AllSections(doc)
    ensures i < |doc| && doc[i].1.Scalar?
    ensures forall j :: 0 <= j < i ==> doc[j].1.Sec?
  {
    if doc[0].1.Scalar? then 0
    else
      assert !AllSections(doc[1..]) by {
        var k :| 0 <= k < |doc| && !doc[k].1.Sec?;
        assert doc[1..][k - 1] == doc[k];
      }
      1 + FirstScalar(doc[1..])
  }

  /** `_save_config`'s conversion for INI: the sections, or, at the first
      entry that is not a dict, the error its missing `.items()` raises. */
  function IniTableOf(doc: Doc): Result<IniTable, ConfigError>
  {
    if AllSections(doc) then Success(Sections(doc))
    else Failure(NotAMapping(doc[FirstScalar(doc)].0))
  }

  /** Saving as INI and reading the file back section by section gives the
      document again, for every document of sections; and a parser's content
      read as a document and saved again gives the same content. */
  lemma IniRoundTrip(doc: Doc, t: IniTable)
    ensures IniTableOf(doc).Success? <==> AllSections(doc)
    ensures AllSections(doc) ==> IniDoc(IniTableOf(doc).value) == doc
    ensures IniTableOf(IniDoc(t)) == Success(t)
  {
    if AllSections(doc) {
      var back := IniDoc(Sections(doc));
      assert |back| == |doc|;
      forall i | 0 <= i < |doc| ensures back[i] == doc[i] {
        assert doc[i].1 == Sec(doc[i].1.items);
      }
      assert back == doc;
    }
    var u := Sections(IniDoc(t));
    assert |u| == |t|;
    forall i | 0 <= i < |t| ensures u[i] == t[i] {
    }
    assert u == t;
  }

  /** One step of `_load_ini_config`'s loop: the document of the first `i`
      parser sections, extended by section `i`, is that of the first `i + 1`. */
  lemma IniDocNext(t: IniTable, i: nat)
    requires i < |t|
    ensures Put(IniDoc(Prefix(t, i)), t[i].0, Sec(t[i].1)) == IniDoc(Prefix(t, i + 1))
  {
    var front := IniDoc(Prefix(t, i));
    assert t[i].0 !in Keys(front) by {
      forall j | 0 <= j < i ensures Keys(front)[j] != t[i].0 {
        assert KeyAt(t, j) != KeyAt(t, i);
      }
    }
    assert front + [(t[i].0, Sec(t[i].1))] == IniDoc(Prefix(t, i + 1));
  }

  /** Past a prefix of sections, a section extends the prefix. */
  lemma SectionsGrow(doc: Doc, i: nat)
    requires i < |doc| && AllSections(Prefix(doc, i)) && doc[i].1.Sec?
    ensures AllSections(Prefix(doc, i + 1))
  {
    var longer := Prefix(doc, i + 1);
    forall j | 0 <= j < |longer| ensures longer[j].1.Sec? {
      if j < i {
        assert Prefix(doc, i)[j] == doc[j];
      }
    }
  }

  /** Past a prefix of sections, the first entry that is not one is where the
      INI conversion raises. */
  lemma ScalarStops(doc: Doc, i: nat)
    requires i < |doc| && AllSections(Prefix(doc, i)) && doc[i].1.Scalar?
    ensures IniTableOf(doc) == Failure(NotAMapping(doc[i].0))
  {
    forall j | 0 <= j < i ensures doc[j].1.Sec? {
      assert Prefix(doc, i)[j] == doc[j];
    }
    var k := FirstScalar(doc);
    assert k == i;
  }

  /** One step of `_save_config`'s loop, on a section. */
  lemma SectionsNext(doc: Doc, i: nat)
    requires i < |doc| && AllSections(Prefix(doc, i + 1))
    ensures AllSections(Prefix(doc, i))
    ensures Put(Sections(Prefix(doc, i)), doc[i].0, doc[i].1.items) == Sections(Prefix(doc, i + 1))
  {
    assert AllSections(Prefix(doc, i)) by {
      forall j | 0 <= j < i ensures doc[j].1.Sec? {
        assert Prefix(doc, i + 1)[j] == doc[j];
      }
    }
    var front := Sections(Prefix(doc, i));
    assert doc[i].0 !in Keys(front) by {
      forall j | 0 <= j < i ensures Keys(front)[j] != doc[i].0 {
        assert KeyAt(doc, j) != KeyAt(doc, i);
      }
    }
    assert front + [(doc[i].0, doc[i].1.items)] == Sections(Prefix(doc, i + 1));
  }

  // ---------------------------------------------------------------------
  // Loading and saving

  /** What `_save_config` writes for a format, or why it raises. */
  function Render(fmt: Format, doc: Doc): Result<Stored, ConfigError>
  {
    match fmt
    case Json => Success(JsonFile(doc))
    case Ini =>
      (match IniTableOf(doc)
       case Success(t) => Success(IniFile(t))
       case Failure(e) => Failure(e))
    case Unsupported(x) => Failure(UnsupportedFormat(x))
  }

  /** The default document converts to INI content. */
  lemma DefaultConfigConverts()
    ensures IniTableOf(DefaultConfig()).Success?
  {
    DefaultConfigShape();
  }

  /** `_create_default_config` as a value: the default document, which
      saving accepts in both supported formats; an unsupported suffix makes
      the save raise. */
  function DefaultAndSave(fmt: Format): (r: Result<Doc, ConfigError>)
    ensures r.Success? <==> !fmt.Unsupported?
    ensures r.Success? ==> r.value == DefaultConfig() && Render(fmt, DefaultConfig()).Success?
    ensures r.Failure? ==> r.error == UnsupportedFormat(fmt.suffix)
  {
    DefaultConfigConverts();
    if fmt.Unsupported? then Failure(UnsupportedFormat(fmt.suffix)) else Success(DefaultConfig())
  }

  /** The file `_create_default_config` leaves behind. */
  function DefaultFile(fmt: Format): (f: Stored)
    requires !fmt.Unsupported?
    ensures Render(fmt, DefaultConfig()) == Success(f)
  {
    DefaultConfigConverts();
    Render(fmt, DefaultConfig()).value
  }

  /** Whether loading falls back to the default document: the file is
      missing, or the parser of its format fails. */
  predicate UsesDefault(fmt: Format, fileExists: bool, json: Parsed<Doc>, ini: Parsed<IniTable>)
  {
    !fileExists || (fmt == Json && json.ParseErr?) || (fmt == Ini && ini.ParseErr?)
  }

  /** The document `_load_config` returns, or the error it raises. */
  function LoadResult(fmt: Format, fileExists: bool, json: Parsed<Doc>, ini: Parsed<IniTable>): (r: Result<Doc, ConfigError>)
    ensures r.Failure? <==> fmt.Unsupported?
    ensures r.Failure? ==> r.error == UnsupportedFormat(fmt.suffix)
    ensures r.Success? && UsesDefault(fmt, fileExists, json, ini) ==> r.value == DefaultConfig()
    ensures r.Success? && fmt == Ini ==> AllSections(r.value)
  {
    DefaultConfigShape();
    if !fileExists then DefaultAndSave(fmt)
    else
      match fmt
      case Json => if json.ParseOk? then Success(json.value) else DefaultAndSave(fmt)
      case Ini => if ini.ParseOk? then Success(IniDoc(ini.value)) else DefaultAndSave(fmt)
      case Unsupported(x) => Failure(UnsupportedFormat(x))
  }

  /** A missing file loads as exactly the default document when the format
      is supported, and raises otherwise, because saving the default refuses
      the suffix. */
  lemma LoadMissingFile(fmt: Format, json: Parsed<Doc>, ini: Parsed<IniTable>)
    ensures !fmt.Unsupported? ==> LoadResult(fmt, false, json, ini) == Success(DefaultConfig())
    ensures fmt.Unsupported? ==> LoadResult(fmt, false, json, ini) == Failure(UnsupportedFormat(fmt.suffix))
  {
  }

  /** Reloading a file the loader wrote gives back the document, provided the
      parser reports what was written. */
  lemma ReloadWritten(fmt: Format, doc: Doc)
    requires Render(fmt, doc).Success?
    ensures fmt == Json ==> LoadResult(fmt, true, ParseOk(Render(fmt, doc).value.doc), ParseErr) == Success(doc)
    ensures fmt == Ini ==> AllSections(doc) ==>
              LoadResult(fmt, true, ParseErr, ParseOk(Render(fmt, doc).value.table)) == Success(doc)
  {
    if fmt == Ini && AllSections(doc) {
      IniRoundTrip(doc, []);
    }
  }

  /** The inner loop of both INI conversions: assign every key and value of
      a section, in order, into a fresh dict. The copy equals the section. */
  method CopyItems(items: Dict<string, string>) returns (copy: Dict<string, string>)
    ensures copy == items
  {
    copy := [];
    var j := 0;
    while j < |items|
      invariant 0 <= j <= |items|
      invariant copy == Prefix(items, j)
    {
      PutNext(items, j);
      copy := Put(copy, items[j].0, items[j].1);
      j := j + 1;
    }
  }

  /** `_load_ini_config`'s conversion loop: `result[section] = {}`, then
      every key of the parser section assigned into it. */
  method IniToDoc(t: IniTable) returns (doc: Doc)
    ensures doc == IniDoc(t)
  {
    doc := [];
    var i := 0;
    while i < |t|
      invariant 0 <= i <= |t|
      invariant doc == IniDoc(Prefix(t, i))
    {
      var (section, pairs) := t[i];
      var items := CopyItems(pairs);
      IniDocNext(t, i);
      doc := Put(doc, section, Sec(items));
      i := i + 1;
    }
  }

  /** `_save_config`'s INI loop: `config_parser[section] = {}`, then every
      key of the section assigned into it as a string. */
  method FillIniParser(doc: Doc) returns (r: Result<IniTable, ConfigError>)
    ensures r == IniTableOf(doc)
  {
    var table: IniTable := [];
    var i := 0;
    while i < |doc|
      invariant 0 <= i <= |doc|
      invariant AllSections(Prefix(doc, i)) && table == Sections(Prefix(doc, i))
    {
      var (section, entry) := doc[i];
      match entry {
        case Scalar(_) =>
          // `items.items()` on a value that is not a dict raises.
          ScalarStops(doc, i);
          return Failure(NotAMapping(section));
        case Sec(items) =>
          var copy := CopyItems(items);
          SectionsGrow(doc, i);
          SectionsNext(doc, i);
          table := Put(table, section, copy);
      }
      i := i + 1;
    }
    assert Prefix(doc, i) == doc;
    r := Success(table);
  }

  // ---------------------------------------------------------------------
  // The loader object

  class ConfigLoader {
    const path: string
    /** The format `config_path.suffix.lower()` selects; the path never
        changes, so neither does the format. */
    const format: Format
    var config: Doc
    var disk: Option<Stored>

    /** The state every loader is in once constructed: a supported format, a
        file on disk, and only sections when the file is INI. */
    ghost predicate Valid()
      reads this
    {
      && !format.Unsupported?
      && (format == Ini ==> AllSections(config))
      && disk.Some?
    }

    /** The object before `_load_config` has filled `config`. Only `Create`
        uses it; `Valid()` holds only once `Create` returns `Success`. */
    constructor Unloaded(path: string, disk: Option<Stored>)
      ensures this.path == path && format == FormatOf(path) && this.disk == disk && config == []
    {
      this.path := path;
      format := FormatOf(path);
      this.disk := disk;
      config := [];
    }

    /** `ConfigLoader(config_path)`: pick the path, load it (which may write
        the default file) and keep the result; loading may raise. */
    static method Create(configPath: Option<string>, rootDir: string, disk: Option<Stored>,
                         json: Parsed<Doc>, ini: Parsed<IniTable>)
      returns (r: Result<ConfigLoader, ConfigError>)
      ensures var path := ConfigPathFor(configPath, rootDir);
        var loaded := LoadResult(FormatOf(path), disk.Some?, json, ini);
        && (r.Success? <==> loaded.Success?)
        && (r.Failure? ==> r.error == loaded.error)
        && (r.Success? ==>
              && fresh(r.value) && r.value.Valid()
              && r.value.path == path
              && r.value.config == loaded.value
              && r.value.disk == if UsesDefault(FormatOf(path), disk.Some?, json, ini)
                                 then Some(DefaultFile(FormatOf(path)))
                                 else disk)
    {
      var loader := new ConfigLoader.Unloaded(ConfigPathFor(configPath, rootDir), disk);
      var doc := loader.LoadConfig(json, ini);
      if doc.Failure? {
        return Failure(doc.error);
      }
      loader.config := doc.value;
      r := Success(loader);
    }

    /** `_load_config`: default for a missing file, else dispatch on the
        lower-cased suffix, raising for any suffix but `.json` and `.ini`. */
    method LoadConfig(json: Parsed<Doc>, ini: Parsed<IniTable>) returns (r: Result<Doc, ConfigError>)
      modifies this`disk
      ensures r == LoadResult(format, old(disk).Some?, json, ini)
      ensures disk == if r.Success? && UsesDefault(format, old(disk).Some?, json, ini)
                      then Some(DefaultFile(format))
                      else old(disk)
    {
      if disk.None? {
        r := CreateDefaultConfig();
        return;
      }
      match format {
        case Json => r := LoadJsonConfig(json);
        case Ini => r := LoadIniConfig(ini);
        case Unsupported(suffix) => r := Failure(UnsupportedFormat(suffix));
      }
    }

    /** `_load_json_config`: the parsed document, or the default when parsing
        fails. */
    method LoadJsonConfig(json: Parsed<Doc>) returns (r: Result<Doc, ConfigError>)
      modifies this`disk
      ensures r == if json.ParseOk? then Success(json.value) else DefaultAndSave(format)
      ensures disk == if json.ParseErr? && r.Success?
                      then Some(DefaultFile(format))
                      else old(disk)
    {
      match json {
        case ParseOk(doc) => r := Success(doc);
        case ParseErr => r := CreateDefaultConfig();
      }
    }

    /** `_load_ini_config`: the reported sections as a document, or the
        default when parsing fails. */
    method LoadIniConfig(ini: Parsed<IniTable>) returns (r: Result<Doc, ConfigError>)
      modifies this`disk
      ensures r == if ini.ParseOk? then Success(IniDoc(ini.value)) else DefaultAndSave(format)
      ensures disk == if ini.ParseErr? && r.Success?
                      then Some(DefaultFile(format))
                      else old(disk)
    {
      match ini {
        case ParseOk(secs) =>
          var doc := IniToDoc(secs);
          r := Success(doc);
        case ParseErr =>
          r := CreateDefaultConfig();
      }
    }

    /** `_create_default_config`: save the default document and return it. */
    method CreateDefaultConfig() returns (r: Result<Doc, ConfigError>)
      modifies this`disk
      ensures r == DefaultAndSave(format)
      ensures disk == if r.Success? then Some(DefaultFile(format)) else old(disk)
    {
      var saved := SaveConfig(DefaultConfig());
      if saved.Fail? {
        return Failure(saved.error);
      }
      r := Success(DefaultConfig());
    }

    /** `_save_config`: overwrite the file with the whole document, or raise
        without writing. */
    method SaveConfig(doc: Doc) returns (r: Outcome<ConfigError>)
      modifies this`disk
      ensures r.Pass? <==> Render(format, doc).Success?
      ensures r.Pass? ==> disk == Some(Render(format, doc).value)
      ensures r.Fail? ==> r.error == Render(format, doc).error && disk == old(disk)
    {
      match format {
        case Json =>
          disk := Some(JsonFile(doc));
          r := Pass;
        case Ini =>
          var table := FillIniParser(doc);
          if table.Failure? {
            return Fail(table.error);
          }
          disk := Some(IniFile(table.value));
          r := Pass;
        case Unsupported(suffix) =>
          r := Fail(UnsupportedFormat(suffix));
      }
    }

    /** `get`: the stored value when the section is a dict holding the key,
        and `default` in every other case. */
    function Get(section: string, key: string, default: string): (r: string)
      reads this
      ensures (OrderedDict.Get(config, section).Some? && OrderedDict.Get(config, section).value.Sec?
               && OrderedDict.Get(OrderedDict.Get(config, section).value.items, key).Some?) ==>
              r == OrderedDict.Get(OrderedDict.Get(config, section).value.items, key).value
      ensures !(OrderedDict.Get(config, section).Some? && OrderedDict.Get(config, section).value.Sec?
                && OrderedDict.Get(OrderedDict.Get(config, section).value.items, key).Some?) ==>
              r == default
    {
      Lookup(config, section, key, default)
    }

    /** `set`: create the section if needed, assign the key, save the whole
        document. */
    method Set(section: string, key: string, value: string) returns (r: Outcome<ConfigError>)
      requires Valid()
      modifies this`config, this`disk
      ensures Valid()
      ensures r.Pass? <==> Assign(old(config), section, key, value).Success?
      ensures r.Pass? ==> && config == Assign(old(config), section, key, value).value
                          && Render(format, config).Success?
                          && disk == Some(Render(format, config).value)
      ensures r.Fail? ==> r.error == NotAMapping(section) && config == old(config) && disk == old(disk)
    {
      var entry := OrderedDict.Get(config, section);
      AssignFailure(config, section, key, value);
      if entry.Some? && entry.value.Scalar? {
        // Item assignment on a value that is not a dict raises TypeError.
        return Fail(NotAMapping(section));
      }
      AssignInPlace(section, key, value);
      r := SaveConfig(config);
    }

    /** The two assignments of `set`: `config[section] = {}` when the section
        is missing, then `config[section][key] = value`. */
    method AssignInPlace(section: string, key: string, value: string)
      requires Assign(config, section, key, value).Success?
      requires format == Ini ==> AllSections(config)
      modifies this`config
      ensures config == Assign(old(config), section, key, value).value
      ensures format == Ini ==> AllSections(config)
      ensures !format.Unsupported? ==> Render(format, config).Success?
    {
      AssignConverts(format, config, section, key, value);
      if section !in Keys(config) {
        config := Put(config, section, Sec([]));
      }
      var items := OrderedDict.Get(config, section).value.items;
      config := Put(config, section, Sec(Put(items, key, value)));
      SetInTwoSteps(old(config), section, key, value);
    }

    /** `get_sections`: the section names, each once, in insertion order. */
    function GetSections(): (r: seq<string>)
      reads this
      ensures |r| == |config|
      ensures forall i :: 0 <= i < |r| ==> r[i] == config[i].0
      ensures forall s :: s in r <==> OrderedDict.Get(config, s).Some?
      ensures forall i, j :: 0 <= i < j < |r| ==> r[i] != r[j]
    {
      KeysDistinct(config);
      Keys(config)
    }

    /** `get_section`: the entry stored under `section` (whatever it holds),
        or `default`. */
    function GetSection(section: string, default: Entry): (r: Entry)
      reads this
      ensures section in GetSections() ==> OrderedDict.Get(config, section) == Some(r)
      ensures section !in GetSections() ==> r == default
    {
      match OrderedDict.Get(config, section)
      case Some(e) => e
      case None => default
    }

    /** `get_config`: the whole document held in memory. */
    function GetConfig(): (r: Doc)
      reads this
      ensures Keys(r) == GetSections()
      ensures forall s :: OrderedDict.Get(r, s) == OrderedDict.Get(config, s)
      ensures forall s, k, d :: Lookup(r, s, k, d) == Get(s, k, d)
    {
      config
    }
  }
}
