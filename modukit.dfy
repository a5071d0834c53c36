/** The application object of main.py: the JSON configuration it loads or
    writes, the catalog of plug-in modules it discovers under its module
    directory, the lookups over that catalog and the command step of its
    interactive prompt.

    Importing a module is not computed here: each entry of the module
    directory is a `Candidate` that carries what importing and constructing
    it does. The configuration file is the `configFile` field (None: no
    file), and what `json.load` makes of an existing file is handed to the
    loading method as a `Parsed` value. */
module ModuKitApp {
  import opened Wrappers
  import opened OrderedDict
  import opened PyText

  /** A JSON value as `json.load` returns it; objects keep their key order. */
  datatype Json =
    | JNull
    | JBool(b: bool)
    | JNum(n: int)
    | JStr(s: string)
    | JArr(elems: seq<Json>)
    | JObj(fields: Dict<string, Json>)

  /** The configuration file: the document this program last wrote, or a
      file it did not write. */
  datatype ConfigFile = Written(doc: Json) | Foreign

  // ---------------------------------------------------------------------
  // Configuration

  /** The document `_create_default_config` builds for a program version. */
  function DefaultConfig(version: string): (c: Json)
    ensures c.JObj?
    ensures Keys(c.fields) == ["version", "theme", "language", "enabled_modules", "user_settings"]
    ensures Get(c.fields, "version") == Some(JStr(version))
    ensures Get(c.fields, "enabled_modules") == Some(JArr([]))
  {
    var fields := DefaultFields(version);
    GetAt(fields, 0);
    GetAt(fields, 3);
    JObj(fields)
  }

  function DefaultFields(version: string): Dict<string, Json>
  {
    [("version", JStr(version)),
     ("theme", JStr("default")),
     ("language", JStr("zh_CN")),
     ("enabled_modules", JArr([])),
     ("user_settings", JObj([]))]
  }

  /** What `_load_config` settles on: the configuration and the file left
      behind. The file's document is used when the file exists and parses;
      otherwise the default is written and used. */
  function LoadOutcome(file: Option<ConfigFile>, read: Parsed<Json>, version: string): (Json, Option<ConfigFile>)
  {
    if file.Some? && read.ParseOk? then (read.value, file)
    else (DefaultConfig(version), Some(Written(DefaultConfig(version))))
  }

  /** What parsing a file gives: a written document reads back as itself; a
      foreign file as the parser makes of it. */
  function ReadBack(f: ConfigFile, foreign: Parsed<Json>): Parsed<Json>
  {
    match f
    case Written(doc) => ParseOk(doc)
    case Foreign => foreign
  }

  /** Loading leaves a file behind, and loading again from that file gives the
      same configuration and leaves the file as it is. */
  lemma LoadSettles(file: Option<ConfigFile>, read: Parsed<Json>, version: string)
    requires file.Some? ==> read == ReadBack(file.value, read)
    ensures LoadOutcome(file, read, version).1.Some?
    ensures var (c, f) := LoadOutcome(file, read, version);
            LoadOutcome(f, ReadBack(f.value, read), version) == (c, f)
  {
  }

  /** A missing or unreadable file gives the default, whose `version` is the
      program's and whose list of enabled modules is empty, and the default
      is what the file then holds. */
  lemma LoadFallsBack(file: Option<ConfigFile>, read: Parsed<Json>, version: string)
    requires file.None? || read.ParseErr?
    ensures var (c, f) := LoadOutcome(file, read, version);
            c.JObj? && Get(c.fields, "version") == Some(JStr(version))
            && Get(c.fields, "enabled_modules") == Some(JArr([]))
            && f == Some(Written(c))
  {
  }

  // ---------------------------------------------------------------------
  // Module discovery

  /** The `ModuleInfo` a module exposes. */
  datatype ModuleInfo = ModuleInfo(version: string, description: string, author: string)

  /** What calling `run()` on a module instance does. */
  datatype RunBehaviour = RunsOk | RunRaises(message: string)

  /** A constructed `Module()` instance. */
  datatype Instance = Instance(id: nat, run: RunBehaviour)

  /** What importing a candidate and constructing its module does. */
  datatype ImportOutcome =
    | ImportFails(message: string)            // `import_module` raises
    | MissingMembers                          // no `ModuleInfo` or no `Module`
    | CtorFails(message: string)              // `Module()` raises
    | Constructed(info: ModuleInfo, instance: Instance)

  /** An entry of the module directory. */
  datatype Candidate = Candidate(name: string, isDir: bool, hasInit: bool, load: ImportOutcome)

  /** A catalog entry: the module's info and its instance. */
  datatype Loaded = Loaded(info: ModuleInfo, instance: Instance)

  /** The catalog: module name to entry, in discovery order. */
  type Catalog = Dict<string, Loaded>

  /** A directory with an `__init__.py` whose import exposes both members and
      whose `Module()` returns. */
  predicate Admissible(c: Candidate)
  {
    c.isDir && c.hasInit && c.load.Constructed?
  }

  function EntryOf(c: Candidate): Loaded
    requires c.load.Constructed?
  {
    Loaded(c.load.info, c.load.instance)
  }

  /** One step of discovery: an admissible candidate is stored under its
      name; any other leaves the catalog as it is. */
  function Admit(cat: Catalog, c: Candidate): Catalog
  {
    if Admissible(c) then Put(cat, c.name, EntryOf(c)) else cat
  }

  /** Discovery over the candidates in enumeration order. */
  function Scan(cat: Catalog, cs: seq<Candidate>): Catalog
  {
    if cs == [] then cat else Admit(Scan(cat, cs[..|cs| - 1]), cs[|cs| - 1])
  }

  /** Some admissible candidate is named `n`. */
  predicate Offers(cs: seq<Candidate>, n: string)
  {
    exists i :: 0 <= i < |cs| && Admissible(cs[i]) && cs[i].name == n
  }

  /** The admissible candidates, in order. */
  function Admitted(cs: seq<Candidate>): seq<Candidate>
  {
    if cs == [] then []
    else Admitted(cs[..|cs| - 1]) + (if Admissible(cs[|cs| - 1]) then [cs[|cs| - 1]] else [])
  }

  function Names(cs: seq<Candidate>): (ns: seq<string>)
    ensures |ns| == |cs| && forall i :: 0 <= i < |cs| ==> ns[i] == cs[i].name
  {
    seq(|cs|, i requires 0 <= i < |cs| => cs[i].name)
  }

  predicate DistinctNames(cs: seq<Candidate>)
  {
    forall i, j :: 0 <= i < j < |cs| ==> cs[i].name != cs[j].name
  }

  lemma OffersSnoc(cs: seq<Candidate>, n: string)
    requires cs != []
    ensures Offers(cs, n) <==>
            Offers(cs[..|cs| - 1], n) || (Admissible(cs[|cs| - 1]) && cs[|cs| - 1].name == n)
  {
    var front := cs[..|cs| - 1];
    if Offers(cs, n) {
      var i :| 0 <= i < |cs| && Admissible(cs[i]) && cs[i].name == n;
      if i < |front| {
        assert front[i] == cs[i];
      }
    }
    if Offers(front, n) {
      var i :| 0 <= i < |front| && Admissible(front[i]) && front[i].name == n;
      assert cs[i] == front[i];
    }
  }

  /** A name is in the catalog after discovery exactly when it was before or
      some admissible candidate carries it. */
  lemma {:induction false} ScanMembers(cat: Catalog, cs: seq<Candidate>, n: string)
    ensures n in Keys(Scan(cat, cs)) <==> n in Keys(cat) || Offers(cs, n)
  {
    if cs != [] {
      ScanMembers(cat, cs[..|cs| - 1], n);
      OffersSnoc(cs, n);
    }
  }

  /** A name that no admissible candidate carries keeps its entry, or stays
      absent. */
  lemma {:induction false} ScanFrame(cat: Catalog, cs: seq<Candidate>, n: string)
    requires !Offers(cs, n)
    ensures Get(Scan(cat, cs), n) == Get(cat, n)
  {
    if cs != [] {
      OffersSnoc(cs, n);
      ScanFrame(cat, cs[..|cs| - 1], n);
    }
  }

  /** An admissible candidate that no later admissible candidate shadows is
      stored with its own info and instance. */
  lemma {:induction false} ScanStores(cat: Catalog, cs: seq<Candidate>, i: nat)
    requires i < |cs| && Admissible(cs[i])
    requires forall j :: i < j < |cs| && Admissible(cs[j]) ==> cs[j].name != cs[i].name
    ensures Get(Scan(cat, cs), cs[i].name) == Some(EntryOf(cs[i]))
  {
    var front := cs[..|cs| - 1];
    var last := cs[|cs| - 1];
    if i < |cs| - 1 {
      assert front[i] == cs[i];
      forall j | i < j < |front| && Admissible(front[j]) ensures front[j].name != front[i].name {
        assert front[j] == cs[j];
      }
      ScanStores(cat, front, i);
      if Admissible(last) {
        var before := Scan(cat, front);
        assert Get(Put(before, last.name, EntryOf(last)), cs[i].name) == Get(before, cs[i].name);
      }
    }
  }

  /** Failures are isolated: discovery over only the admissible candidates
      builds the same catalog. */
  lemma {:induction false} ScanAdmitted(cat: Catalog, cs: seq<Candidate>)
    ensures Scan(cat, cs) == Scan(cat, Admitted(cs))
  {
    if cs != [] {
      var front := cs[..|cs| - 1];
      var last := cs[|cs| - 1];
      ScanAdmitted(cat, front);
      var a := Admitted(front);
      if Admissible(last) {
        assert Admitted(cs) == a + [last];
        assert (a + [last])[..|a|] == a;
      } else {
        assert Admitted(cs) == a + [];
        assert a + [] == a;
      }
    }
  }

  lemma {:induction false} AdmittedConcat(xs: seq<Candidate>, ys: seq<Candidate>)
    ensures Admitted(xs + ys) == Admitted(xs) + Admitted(ys)
  {
    if ys != [] {
      var front := ys[..|ys| - 1];
      assert (xs + ys)[..|xs + ys| - 1] == xs + front;
      AdmittedConcat(xs, front);
    } else {
      assert xs + ys == xs;
    }
  }

  /** Dropping a failing candidate from anywhere in the enumeration does not
      change the catalog: discovery carries on with the rest. */
  lemma DropRejected(cat: Catalog, cs: seq<Candidate>, i: nat)
    requires i < |cs| && !Admissible(cs[i])
    ensures Scan(cat, cs[..i] + cs[i + 1..]) == Scan(cat, cs)
  {
    var before, after := cs[..i], cs[i + 1..];
    var dropped := before + after;
    assert cs == (before + [cs[i]]) + after;
    AdmittedConcat(before + [cs[i]], after);
    AdmittedConcat(before, [cs[i]]);
    assert Admitted([cs[i]]) == [] by {
      assert [cs[i]][..0] == [];
    }
    assert Admitted(before) + [] == Admitted(before);
    AdmittedConcat(before, after);
    assert Admitted(cs) == Admitted(dropped);
    ScanAdmitted(cat, cs);
    ScanAdmitted(cat, dropped);
  }

  /** From an empty catalog and distinct directory names, the catalog holds
      the admissible candidates' names in enumeration order. */
  lemma {:induction false} ScanOrder(cs: seq<Candidate>)
    requires DistinctNames(cs)
    ensures Keys(Scan([], cs)) == Names(Admitted(cs))
  {
    if cs != [] {
      var front := cs[..|cs| - 1];
      var last := cs[|cs| - 1];
      assert DistinctNames(front) by {
        forall i, j | 0 <= i < j < |front| ensures front[i].name != front[j].name {
          assert front[i] == cs[i] && front[j] == cs[j];
        }
      }
      ScanOrder(front);
      if Admissible(last) {
        assert last.name !in Keys(Scan([], front)) by {
          ScanMembers([], front, last.name);
        }
      }
    }
  }

  /** A directory without `__init__.py`, a module whose constructor raises
      and a valid module, in any order of enumeration: only the valid one is
      catalogued. */
  lemma OneValidOfThree(cs: seq<Candidate>, good: nat)
    requires |cs| == 3 && good < 3 && Admissible(cs[good])
    requires forall i :: 0 <= i < 3 && i != good ==> !Admissible(cs[i])
    ensures Scan([], cs) == [(cs[good].name, EntryOf(cs[good]))]
  {
    ScanAdmitted([], cs);
    AdmittedOne(cs, good);
    var c := cs[good];
    assert [c][..0] == [];
    assert Put([], c.name, EntryOf(c)) == [(c.name, EntryOf(c))];
  }

  lemma AdmittedOne(cs: seq<Candidate>, good: nat)
    requires |cs| == 3 && good < 3 && Admissible(cs[good])
    requires forall i :: 0 <= i < 3 && i != good ==> !Admissible(cs[i])
    ensures Admitted(cs) == [cs[good]]
  {
    assert Admitted(cs[..1]) == (if good == 0 then [cs[0]] else []) by {
      assert cs[..1][..0] == [] && cs[..1][0] == cs[0];
    }
    assert Admitted(cs[..2]) == (if good <= 1 then [cs[good]] else []) by {
      assert cs[..2][..1] == cs[..1] && cs[..2][1] == cs[1];
    }
  }

  /** One line of `list_modules`. */
  datatype ModuleSummary = ModuleSummary(name: string, version: string, description: string, author: string)

  function Describe(name: string, info: ModuleInfo): ModuleSummary
  {
    ModuleSummary(name, info.version, info.description, info.author)
  }

  /** What `_use_module` reports. */
  datatype UseReport = NotFound | Ran | RunFailed(message: string)

  // ---------------------------------------------------------------------
  // The application object

  class ModuKit {
    const version: string
    var modules: Catalog
    var config: Json
    var configFile: Option<ConfigFile>

    /** `ModuKit()`: the module directory has been created, so discovery
        runs over its listing. */
    constructor (file: Option<ConfigFile>, read: Parsed<Json>, listing: seq<Candidate>)
      ensures version == "0.1.0"
      ensures (config, configFile) == LoadOutcome(file, read, "0.1.0")
      ensures modules == Scan([], listing)
    {
      version := "0.1.0";
      modules := [];
      config := JObj([]);
      configFile := file;
      new;
      LoadConfig(read);
      LoadModules(Some(listing));
    }

    /** `_load_config`. */
    method LoadConfig(read: Parsed<Json>)
      modifies this`config, this`configFile
      ensures (config, configFile) == LoadOutcome(old(configFile), read, version)
    {
      if configFile.Some? {
        match read {
          case ParseOk(doc) =>
            config := doc;
          case ParseErr =>
            config := CreateDefaultConfig();
        }
      } else {
        config := CreateDefaultConfig();
      }
    }

    /** `_create_default_config`: builds the default and writes it out. */
    method CreateDefaultConfig() returns (c: Json)
      modifies this`configFile
      ensures c == DefaultConfig(version)
      ensures configFile == Some(Written(c))
    {
      c := DefaultConfig(version);
      configFile := Some(Written(c));
    }

    /** `_load_modules`: None stands for a module directory that does not
        exist. */
    method LoadModules(dir: Option<seq<Candidate>>)
      modifies this`modules
      ensures modules == if dir.None? then old(modules) else Scan(old(modules), dir.value)
    {
      if dir.None? {
        return;
      }
      var cs := dir.value;
      var i := 0;
      while i < |cs|
        invariant 0 <= i <= |cs|
        invariant modules == Scan(old(modules), cs[..i])
      {
        var c := cs[i];
        if c.isDir && c.hasInit {
          match c.load {
            case ImportFails(_) =>
            case MissingMembers =>
            case CtorFails(_) =>
            case Constructed(info, instance) =>
              modules := Put(modules, c.name, Loaded(info, instance));
          }
        }
        assert cs[..i + 1][..i] == cs[..i];
        i := i + 1;
      }
      assert cs[..|cs|] == cs;
    }

    /** `get_module`: the stored instance, or None. */
    function GetModule(name: string): (r: Option<Instance>)
      reads this
      ensures r.Some? <==> name in Keys(modules)
      ensures r.Some? ==> Get(modules, name).value.instance == r.value
    {
      match Get(modules, name)
      case Some(entry) => Some(entry.instance)
      case None => None
    }

    /** `list_modules`: one summary per catalog entry, in catalog order,
        carrying the entry's name and the fields of its info. */
    function ListModules(): (r: seq<ModuleSummary>)
      reads this
      ensures |r| == |modules|
      ensures forall i :: 0 <= i < |r| ==> r[i].name == Keys(modules)[i]
      ensures forall i :: 0 <= i < |r| ==>
                Get(modules, r[i].name).Some? && r[i] == Describe(r[i].name, Get(modules, r[i].name).value.info)
    {
      var m := modules;
      forall i | 0 <= i < |m| ensures Get(m, m[i].0) == Some(m[i].1) {
        GetAt(m, i);
      }
      seq(|m|, i requires 0 <= i < |m| => Describe(m[i].0, m[i].1.info))
    }

    /** `_use_module`: an unknown name is reported and nothing runs; an
        exception from `run()` is caught and reported. */
    method UseModule(name: string) returns (report: UseReport)
      ensures report == NotFound <==> name !in Keys(modules)
      ensures report == Ran <==> GetModule(name).Some? && GetModule(name).value.run == RunsOk
      ensures forall msg :: report == RunFailed(msg) <==>
                GetModule(name).Some? && GetModule(name).value.run == RunRaises(msg)
    {
      var found := GetModule(name);
      if found.None? {
        return NotFound;
      }
      match found.value.run {
        case RunsOk =>
          report := Ran;
        case RunRaises(msg) =>
          report := RunFailed(msg);
      }
    }
  }

  // ---------------------------------------------------------------------
  // The command prompt

  datatype Command = Exit | Help | List | Use(name: string) | Unknown

  /** The command step of `_run_cli` for one input line: the line is
      stripped and then dispatched. */
  function Classify(line: string): (c: Command)
    ensures c.Use? ==> c.name != [] && Stripped(c.name)
  {
    Dispatch(Strip(line))
  }

  /** The command a stripped line selects: the exact words first, then the
      `use ` prefix with the stripped remainder as the module name. */
  function Dispatch(cmd: string): (c: Command)
    requires Stripped(cmd)
    ensures c.Use? ==> c.name != [] && Stripped(c.name)
  {
    if cmd == "exit" then Exit
    else if cmd == "help" then Help
    else if cmd == "list" then List
    else if StartsWith(cmd, "use ") then
      UseRemainder(cmd);
      Use(Strip(cmd[4..]))
    else Unknown
  }

  /** The whole rule of the command step, for every line: after stripping,
      exactly the words `exit`, `help` and `list` select those commands, a
      line starting with `use ` selects `Use` of its stripped remainder, and
      every other line is unknown. */
  lemma ClassifyRule(line: string)
    ensures var cmd := Strip(line);
            && (Classify(line) == Exit <==> cmd == "exit")
            && (Classify(line) == Help <==> cmd == "help")
            && (Classify(line) == List <==> cmd == "list")
            && (Classify(line).Use? <==> StartsWith(cmd, "use "))
            && (Classify(line).Use? ==> Classify(line).name == Strip(cmd[4..]))
            && (Classify(line) == Unknown <==>
                  cmd != "exit" && cmd != "help" && cmd != "list" && !StartsWith(cmd, "use "))
  {
  }

  /** Any whitespace between `use ` and the name is stripped from the name. */
  lemma ClassifyUsePadded(a: string, pad: string, name: string, b: string)
    requires AllSpace(a) && AllSpace(pad) && AllSpace(b)
    requires name != [] && Stripped(name)
    ensures Classify(a + ("use " + (pad + name)) + b) == Use(name)
  {
    var cmd := "use " + (pad + name);
    DispatchPaddedUse(pad, name);
    ClassifyIgnoresPadding(a, cmd, b);
    StripSelf(cmd);
  }

  lemma DispatchPaddedUse(pad: string, name: string)
    requires AllSpace(pad) && name != [] && Stripped(name)
    ensures Stripped("use " + (pad + name)) && Dispatch("use " + (pad + name)) == Use(name)
  {
    var rest := pad + name;
    var cmd := "use " + rest;
    assert Stripped(cmd) && |cmd| > 4 by {
      assert cmd[0] == 'u' && cmd[|cmd| - 1] == name[|name| - 1];
    }
    assert StartsWith(cmd, "use ") && cmd[4..] == rest by {
      SplitAfter("use ", rest);
    }
    assert Strip(rest) == name by {
      assert pad + name + [] == rest;
      StripPadded(pad, name, []);
    }
    DispatchUseLine(cmd);
  }

  /** A stripped line starting with `use ` names its stripped remainder. */
  lemma DispatchUseLine(cmd: string)
    requires Stripped(cmd) && StartsWith(cmd, "use ")
    ensures Dispatch(cmd) == Use(Strip(cmd[4..]))
  {
    UseRemainder(cmd);
    assert cmd != "exit" && cmd != "help" && cmd != "list";
  }

  /** Cutting a concatenation where its first part ends. */
  lemma SplitAfter(p: string, r: string)
    ensures (p + r)[..|p|] == p && (p + r)[|p|..] == r
  {
  }

  /** Spaces between `use` and the name are stripped from the name. */
  lemma ClassifyUseSpaces()
    ensures Classify("  use   mod  ") == Use("mod")
  {
    assert "  use   mod  " == "  " + ("use " + ("  " + "mod")) + "  ";
    ClassifyUsePadded("  ", "  ", "mod", "  ");
  }

  /** The words match only in lower case. */
  lemma ClassifyUpperCase()
    ensures Classify("EXIT") == Unknown
  {
    StripSelf("EXIT");
    ClassifyRule("EXIT");
    assert "EXIT"[0] != "use "[0];
  }

  /** A word followed by more text is no command. */
  lemma ClassifyTrailingWord()
    ensures Classify("exit now") == Unknown
  {
    StripSelf("exit now");
    ClassifyRule("exit now");
    assert "exit now"[0] != "use "[0];
  }

  /** `use` without a name is unknown. */
  lemma ClassifyBareUse()
    ensures Classify("use ") == Unknown
  {
    assert "use " == [] + "use" + " ";
    StripPadded([], "use", " ");
  }

  /** After `use ` in a stripped line there is more than whitespace. */
  lemma UseRemainder(cmd: string)
    requires Stripped(cmd) && StartsWith(cmd, "use ")
    ensures |cmd| > 4 && Strip(cmd[4..]) != []
  {
    if |cmd| == 4 {
      assert IsSpace(cmd[3]);
    }
    var rest := cmd[4..];
    assert rest[|rest| - 1] == cmd[|cmd| - 1];
    var i: nat :| i <= |rest| && PaddedAt(rest, Strip(rest), i);
  }

  /** The commands a user can type, with a module name that is neither empty
      nor padded. */
  predicate Typable(c: Command)
  {
    !c.Unknown? && (c.Use? ==> c.name != [] && Stripped(c.name))
  }

  /** The text of a command. */
  function CommandText(c: Command): string
    requires Typable(c)
  {
    match c
    case Exit => "exit"
    case Help => "help"
    case List => "list"
    case Use(name) => "use " + name
  }

  /** Typing a command's text, with any whitespace around it, selects that
      command. */
  lemma ClassifyText(a: string, c: Command, b: string)
    requires AllSpace(a) && AllSpace(b) && Typable(c)
    ensures Classify(a + CommandText(c) + b) == c
  {
    ClassifyIgnoresPadding(a, CommandText(c), b);
    TextStripped(c);
    StripSelf(CommandText(c));
    DispatchText(c);
  }

  lemma DispatchText(c: Command)
    requires Typable(c)
    ensures Stripped(CommandText(c)) && Dispatch(CommandText(c)) == c
  {
    TextStripped(c);
    if c.Use? {
      DispatchUse(c.name);
    }
  }

  lemma TextStripped(c: Command)
    requires Typable(c)
    ensures Stripped(CommandText(c))
  {
    if c.Use? {
      var t := CommandText(c);
      assert t[|t| - 1] == c.name[|c.name| - 1];
    }
  }

  lemma DispatchUse(name: string)
    requires name != [] && Stripped(name)
    ensures Stripped("use " + name) && Dispatch("use " + name) == Use(name)
  {
    var t := "use " + name;
    assert t[|t| - 1] == name[|name| - 1];
    assert t[..4] == "use ";
    assert t[4..] == name;
    StripSelf(name);
  }

  lemma StripSelf(t: string)
    requires Stripped(t)
    ensures Strip(t) == t
  {
    assert [] + t + [] == t;
    StripPadded([], t, []);
  }

  /** Whitespace around a line does not change its command. */
  lemma ClassifyIgnoresPadding(a: string, line: string, b: string)
    requires AllSpace(a) && AllSpace(b)
    ensures Classify(a + line + b) == Classify(line)
  {
    StripIgnoresPadding(a, line, b);
  }
}
