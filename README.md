# ModuKit: configuration store and module registry

ModuKit is a desktop tool shell. It hosts plug-in modules and keeps its
settings in a configuration file. This project models its two stateful parts
in Dafny and proves properties of the model:

- **`ConfigLoader`** (backend/config_loader.py), in module `ConfigStore`
  (config_loader.dfy). It is a two-level store, section → key → value. It is
  loaded from one JSON or INI file, chosen case-insensitively by the file's
  suffix. A missing file is replaced by a fixed default document, which is
  also written out. A file that fails to parse falls back to the same default
  (see the notes on the code for an INI file that cannot be read).
  Every `set` rewrites the whole file.
- **`ModuKit`** (main.py), in module `ModuKitApp` (modukit.dfy). It covers:
  - the JSON configuration it loads, or writes as a default;
  - the catalog it builds by scanning its module directory;
  - the lookups `get_module` and `list_modules`;
  - `_use_module`;
  - the command step of the interactive prompt.

Three supporting modules model the Python built-ins these files rely on:

- `Wrappers` (wrappers.dfy): `Option`, `Result`, `Outcome` and the parser outcome `Parsed`.
- `OrderedDict` (ordered_dict.dfy): Python's insertion-ordered `dict`, as a sequence of pairs with unique keys.
- `PyText` (text.dfy): `str.strip`, `str.isspace`, `str.startswith` and `str.lower`.

How the environment is modelled:

- **The file system** is state on the objects: `ConfigLoader.disk` and
  `ModuKit.configFile`. None means the file is absent.
- **Parsers are not computed.** The loading methods receive what
  `json.load` or `ConfigParser.read` makes of the file as a `Parsed` value:
  `ParseOk(value)` or `ParseErr`.
- **Importing a plug-in is not computed either.** Each entry of the module
  directory is a `Candidate` value. It records:
  - whether the entry is a directory;
  - whether it has an `__init__.py`;
  - what importing and constructing it does. The import can raise, the module
    can lack `ModuleInfo` or `Module`, `Module()` can raise, or construction
    succeeds with the module's info and instance.

## Model

| member | source | states |
|---|---|---|
| `OrderedDict.Keys` | backend/config_loader.py:168 | `list(d.keys())`: one key per pair, in insertion order |
| `OrderedDict.Get` | backend/config_loader.py:180 | `d.get(k)` finds a value exactly when `k` is among the dict's keys |
| `OrderedDict.Put` | backend/config_loader.py:157 | `d[k] = v`: a present key keeps its position, and a new key is appended at the end; `k` then reads `v`; every other key reads as before |
| `OrderedDict.PutTwice` | backend/config_loader.py:153-157 | of two assignments to one key, the second wins, and the key keeps the position the first gave it |
| `OrderedDict.KeysDistinct` | backend/config_loader.py:168 | the keys of a dict are pairwise distinct |
| `OrderedDict.GetAt` | backend/config_loader.py:180 | looking up the key stored at a position gives that position's value |
| `PyText.IsSpace` | main.py:131 | the characters `str.isspace` accepts and `strip()` removes: 0x09-0x0D, 0x1C-0x20, 0x85, 0xA0, 0x1680, 0x2000-0x200A, 0x2028, 0x2029, 0x202F, 0x205F and 0x3000 |
| `PyText.StartsWith` | main.py:140 | `s.startswith(prefix)`: the prefix is no longer than `s` and equals its first characters |
| `PyText.Strip` | main.py:131 | `strip()` returns a string with no whitespace at either end, and the input is that string with whitespace around it |
| `PyText.StripPadded` | main.py:131 | stripping a whitespace-padded, already-stripped string gives back exactly that string |
| `PyText.StripIdempotent` | main.py:141 | stripping twice is the same as stripping once |
| `PyText.StripIgnoresPadding` | main.py:131 | whitespace added around a string does not change what `strip()` returns |
| `PyText.LowerChar` | backend/config_loader.py:48 | ASCII capitals map to their lower-case letters; every other character maps to itself |
| `PyText.Lower` | backend/config_loader.py:48 | lower-casing keeps the length, and each character of the result is the lower-case form of the input's character at that position |
| `ConfigStore.LastIndexOf` | backend/config_loader.py:48 | `rfind`: the position of the last occurrence of a character, with none after it, or -1 when there is none; used for the last `/` and the last `.` of `Path.suffix` |
| `ConfigStore.FileName` | backend/config_loader.py:48 | `PurePath.name`: the text after the last `/` of the path |
| `ConfigStore.FormatOf` | backend/config_loader.py:48-53 | the branch that loading (lines 48-53) and saving (lines 112-126) take: JSON for a lower-cased suffix `.json`, INI for `.ini`, and otherwise the unsupported-format error carrying the suffix as written |
| `ConfigStore.ConfigPathFor` | backend/config_loader.py:25-28 | the given path, or `config/default.ini` under the root directory when none is given |
| `ConfigStore.Suffix` | backend/config_loader.py:48 | `Path.suffix` is empty, or a dot followed by at least one character, none of them a dot or a slash; a non-empty suffix is how the path ends |
| `ConfigStore.NoSuffix` | backend/config_loader.py:48-53 | a file name with no dot, with its only dot at the start (`config/.json`), or ending in a dot has an empty suffix, and loading or saving it is refused with that empty suffix; a dot in a directory name does not count |
| `ConfigStore.SuffixOfAppended` | backend/config_loader.py:48 | a path ending in a one-dot extension has that extension as its suffix |
| `ConfigStore.DispatchIgnoresCase` | backend/config_loader.py:48-53 | the format depends only on the lower-cased suffix: `.json` gives JSON, `.ini` gives INI, and any other suffix is refused under its own spelling |
| `ConfigStore.UpperCaseJsonSuffix` | backend/config_loader.py:48-49 | `x.JSON` and `x.json` both select JSON |
| `ConfigStore.DefaultPathIsIni` | backend/config_loader.py:25-26 | without an explicit path, the loader uses `config/default.ini`, an INI file |
| `ConfigStore.DefaultConfig` | backend/config_loader.py:84-99 | the default document: sections `app`, `server` and `modules` with their fixed settings |
| `ConfigStore.Lookup` | backend/config_loader.py:139-142 | `self.config[section][key]`, or `default` when the section or the key is missing (KeyError) or the section is not a dict (TypeError) |
| `ConfigStore.ItemsOf` | backend/config_loader.py:153-157 | the dict `set` assigns into: the section's dict, or a new empty one when the section is missing |
| `ConfigStore.Assign` | backend/config_loader.py:152-157 | the document after `set`'s two assignments: a missing section is added as a dict, the key is assigned in it; a section holding a non-dict value raises |
| `ConfigStore.DefaultConfigShape` | backend/config_loader.py:84-99 | the default document has exactly the sections `app`, `server` and `modules`, in that order, and each is a dict; the `server` section holds the default server settings |
| `ConfigStore.AssignFailure` | backend/config_loader.py:153-157 | `set` raises exactly when the section holds a value that is not a dict |
| `ConfigStore.GetAfterSet` | backend/config_loader.py:139-157 | after a successful `set(s, k, v)`, `get(s, k, d)` returns `v`, also when `s` was missing before |
| `ConfigStore.SetChangesOneEntry` | backend/config_loader.py:152-157 | `set(s, k, v)` changes only entry `(s, k)`: other sections and other keys of `s` read as before; the section list is unchanged, or grows by `s` at its end |
| `ConfigStore.OtherKeyUnchanged` | backend/config_loader.py:152-157 | after `set(s, k, v)`, every key of `s` other than `k` reads as before |
| `ConfigStore.AssignKeepsSections` | backend/config_loader.py:152-157 | `set` on a document of sections succeeds and leaves a document of sections |
| `ConfigStore.SetInTwoSteps` | backend/config_loader.py:153-157 | creating a missing section as `{}` and then assigning into it gives the same document as a single assignment |
| `ConfigStore.AssignConverts` | backend/config_loader.py:152-160 | after a successful `set`, saving the whole document succeeds in both supported formats |
| `ConfigStore.IniDoc` | backend/config_loader.py:71-77 | INI load gives one dict per parser section, in order, holding that section's pairs |
| `ConfigStore.Sections` | backend/config_loader.py:118-121 | INI save of a document of sections gives one parser section per section, holding its pairs |
| `ConfigStore.IniTableOf` | backend/config_loader.py:117-121 | the INI parser content the save builds: one parser section per document section, or the error naming the first entry that is not a dict |
| `ConfigStore.Render` | backend/config_loader.py:111-126 | what `_save_config` writes: the document as JSON, the parser content as INI, or the unsupported-format error |
| `ConfigStore.FirstScalar` | backend/config_loader.py:118-120 | INI save stops at the first entry that is not a dict; every entry before it is a dict |
| `ConfigStore.IniRoundTrip` | backend/config_loader.py:71-121 | INI save succeeds exactly on documents of sections; reading what was saved gives the document back; saving what was read gives the parser content back |
| `ConfigStore.IniDocNext` | backend/config_loader.py:72-75 | each pass of the INI load loop extends the document by the next parser section |
| `ConfigStore.SectionsGrow` | backend/config_loader.py:118-120 | a dict entry after a prefix of dicts extends that prefix |
| `ConfigStore.ScalarStops` | backend/config_loader.py:118-120 | when a non-dict entry follows a prefix of dicts, INI save raises naming that entry |
| `ConfigStore.SectionsNext` | backend/config_loader.py:118-121 | each pass of the INI save loop adds the next section to the parser content |
| `ConfigStore.DefaultConfigConverts` | backend/config_loader.py:84-102 | the default document can be saved as INI |
| `ConfigStore.DefaultAndSave` | backend/config_loader.py:82-104 | `_create_default_config` returns the default in both supported formats, and raises the unsupported-format error otherwise |
| `ConfigStore.DefaultFile` | backend/config_loader.py:102 | the file written for the default is what saving the default produces |
| `ConfigStore.UsesDefault` | backend/config_loader.py:43-80 | loading falls back to the default exactly when the file is missing, or the chosen parser reports an error |
| `ConfigStore.LoadResult` | backend/config_loader.py:43-80 | loading raises exactly on an unsupported suffix; a missing or unparsable file yields the default; INI loads yield a document of sections |
| `ConfigStore.LoadMissingFile` | backend/config_loader.py:43-45 | a missing file loads as exactly the default when the suffix is supported, and raises when it is not |
| `ConfigStore.ReloadWritten` | backend/config_loader.py:55-80 | loading a file the loader wrote, when the parser reports what was written, gives back the saved document |
| `ConfigStore.CopyItems` | backend/config_loader.py:74-75 | the loop copying a section key by key builds a dict equal to the section |
| `ConfigStore.IniToDoc` | backend/config_loader.py:71-77 | the nested loops of `_load_ini_config` build exactly the document of the parser's sections |
| `ConfigStore.FillIniParser` | backend/config_loader.py:116-121 | the loops of `_save_config` fill the parser with exactly the document's sections, or raise at the first non-dict entry |
| `ConfigStore.ConfigLoader.Unloaded` | backend/config_loader.py:17-28 | the object is created on a fixed path, and the path's format is fixed with it |
| `ConfigStore.ConfigLoader.Create` | backend/config_loader.py:17-34 | construction raises exactly when loading raises; otherwise the config is the loaded document and the file is the written default when one was used |
| `ConfigStore.ConfigLoader.LoadConfig` | backend/config_loader.py:43-53 | the result is `LoadResult`; the default file is written exactly when the default is used |
| `ConfigStore.ConfigLoader.LoadJsonConfig` | backend/config_loader.py:55-62 | the parsed document, or the default (written out) when parsing fails |
| `ConfigStore.ConfigLoader.LoadIniConfig` | backend/config_loader.py:64-80 | the parser's sections as a document, or the default (written out) when parsing fails |
| `ConfigStore.ConfigLoader.CreateDefaultConfig` | backend/config_loader.py:82-104 | saves the default and returns it; the file changes only if the save succeeds |
| `ConfigStore.ConfigLoader.SaveConfig` | backend/config_loader.py:106-126 | the file becomes the whole rendered document, or the save raises and the file is unchanged |
| `ConfigStore.ConfigLoader.Get` | backend/config_loader.py:128-142 | the stored value when the section is a dict holding the key; `default` in every other case, including a non-dict section |
| `ConfigStore.ConfigLoader.Set` | backend/config_loader.py:144-160 | the document becomes `Assign(old, s, k, v)`, and the file holds the whole new document; on a non-dict section it raises and nothing changes; the loader's invariant is kept |
| `ConfigStore.ConfigLoader.AssignInPlace` | backend/config_loader.py:152-157 | the two in-place assignments of `set` give `Assign` |
| `ConfigStore.ConfigLoader.GetSections` | backend/config_loader.py:162-168 | the section names in insertion order: one per section, each once, and exactly the names `get_section` finds |
| `ConfigStore.ConfigLoader.GetSection` | backend/config_loader.py:170-180 | the entry stored under the section, or `default` when the section is not among `get_sections()` |
| `ConfigStore.ConfigLoader.GetConfig` | backend/config_loader.py:182-188 | the whole document: its sections are `get_sections()` in order, every section name reads the same entry as in the loader, and every lookup in it agrees with `get` |
| `ModuKitApp.DefaultConfig` | main.py:58-66 | the default has the keys `version`, `theme`, `language`, `enabled_modules` and `user_settings`, in that order; `version` is the program's version; `enabled_modules` is empty |
| `ModuKitApp.LoadOutcome` | main.py:46-56 | the configuration and the file after `_load_config`: the parsed document when the file exists and parses, otherwise the default, which is written |
| `ModuKitApp.LoadSettles` | main.py:46-72 | loading always leaves a file behind; loading again from that file gives the same configuration and keeps the file |
| `ModuKitApp.LoadFallsBack` | main.py:46-72 | a missing or unparsable file gives the default for the program's version, and the file then holds that default |
| `ModuKitApp.Admissible` | main.py:82-95 | a directory entry qualifies for the catalog exactly when it is a directory with `__init__.py`, its import succeeds with both `ModuleInfo` and `Module`, and `Module()` returns |
| `ModuKitApp.EntryOf` | main.py:90-93 | the catalog entry of a constructed module: its `ModuleInfo` and its `Module()` instance |
| `ModuKitApp.Admit` | main.py:82-98 | one pass of the discovery loop: an admissible entry is stored under its name with its info and instance; any other leaves the catalog as it is |
| `ModuKitApp.Scan` | main.py:74-98 | discovery over the directory listing: the passes of the loop in enumeration order |
| `ModuKitApp.ScanMembers` | main.py:80-93 | after discovery, a name is in the catalog exactly when it was before or an admissible candidate carries it |
| `ModuKitApp.ScanFrame` | main.py:80-98 | a name that no admissible candidate carries keeps its catalog entry, or stays absent |
| `ModuKitApp.ScanStores` | main.py:89-93 | an admissible candidate not shadowed by a later one is stored with its own info and instance |
| `ModuKitApp.ScanAdmitted` | main.py:83-98 | rejected candidates leave no trace: discovery over only the admissible candidates builds the same catalog |
| `ModuKitApp.DropRejected` | main.py:83-98 | removing a failing candidate from anywhere in the enumeration leaves the catalog unchanged, so the scan goes on with the rest |
| `ModuKitApp.ScanOrder` | main.py:80-93 | with distinct directory names, the catalog holds the admissible candidates' names in enumeration order |
| `ModuKitApp.OneValidOfThree` | main.py:80-98 | of a directory without `__init__.py`, a module whose constructor raises and a valid module, only the valid one is catalogued |
| `ModuKitApp.ModuKit.constructor` | main.py:18-32 | the version is `0.1.0`; config and file are what loading gives; the catalog is discovery over the listing |
| `ModuKitApp.ModuKit.LoadConfig` | main.py:46-56 | the parsed document when the file exists and parses; otherwise the default, which is written out |
| `ModuKitApp.ModuKit.CreateDefaultConfig` | main.py:58-72 | returns the default for the program's version and writes it to the file |
| `ModuKitApp.ModuKit.LoadModules` | main.py:74-98 | a missing directory leaves the catalog as it is; otherwise the loop builds the catalog that discovery specifies |
| `ModuKitApp.ModuKit.GetModule` | main.py:100-102 | an instance is returned exactly when the name is in the catalog, and it is the stored instance |
| `ModuKitApp.Describe` | main.py:106-113 | the summary of one catalog entry: its name and its info's version, description and author |
| `ModuKitApp.ModuKit.ListModules` | main.py:104-114 | one summary per catalog entry, in catalog order; each carries the entry's name and its info's version, description and author |
| `ModuKitApp.ModuKit.UseModule` | main.py:166-178 | not-found exactly for an unknown name; otherwise the module's run, with a raised error reported and not propagated |
| `ModuKitApp.Classify` | main.py:131-144 | a `use` command always names a module that is non-empty and has no surrounding whitespace |
| `ModuKitApp.Dispatch` | main.py:133-144 | a `use` command from a stripped line names a non-empty, stripped module |
| `ModuKitApp.UseRemainder` | main.py:140-141 | in a stripped line starting with `use `, more than whitespace follows the prefix |
| `ModuKitApp.ClassifyText` | main.py:131-144 | typing `exit`, `help`, `list` or `use <name>`, with any whitespace around it, selects that command |
| `ModuKitApp.DispatchText` | main.py:133-144 | each command's own text dispatches to that command |
| `ModuKitApp.DispatchUse` | main.py:140-142 | `use <name>` dispatches to `Use(name)` |
| `ModuKitApp.ClassifyIgnoresPadding` | main.py:131 | whitespace around a line does not change its command |
| `ModuKitApp.ClassifyRule` | main.py:131-144 | for every line, after stripping: exactly `exit`, `help` and `list` select those commands; a line starting with `use ` selects `Use` of its stripped remainder, and only such a line does; every other line is unknown |
| `ModuKitApp.DispatchUseLine` | main.py:140-142 | a stripped line starting with `use ` selects `Use` of the stripped text after the prefix |
| `ModuKitApp.DispatchPaddedUse` | main.py:140-142 | `use `, any whitespace, then a name selects `Use` of that name |
| `ModuKitApp.ClassifyUsePadded` | main.py:131-142 | whitespace around the line and between `use ` and the name is dropped from the module name |
| `ModuKitApp.ClassifyUseSpaces` | main.py:131-142 | the line `  use   mod  ` selects module `mod` |
| `ModuKitApp.ClassifyUpperCase` | main.py:133-144 | `EXIT` is an unknown command: the words match only in lower case |
| `ModuKitApp.ClassifyTrailingWord` | main.py:133-144 | `exit now` is an unknown command: a word followed by more text is no command |
| `ModuKitApp.ClassifyBareUse` | main.py:131-144 | `use ` with nothing after it is an unknown command |

## Left out

- index.py (window, tray, argument parsing, logging, crash log) and backend/server.py (Flask routes returning sample data) are not part of this model.
- Real JSON and INI parsing, serialisation and file I/O are not modelled.
  - A parse is the `Parsed` value the caller supplies.
  - A write is the new value of the file field.
  - Write failures, and `os.makedirs`, are not modelled.
- `configparser` behaviour cannot be seen in these files and is not modelled: lower-casing of keys, the `DEFAULT` section whose keys appear in every section, and interpolation. INI round trips are stated on the parser's content, not on file text.
- Configuration values are strings.
  - `str(value)` in the INI save is the identity.
  - JSON numbers, booleans, lists and nested objects inside a section are left out.
  - A JSON top-level entry that is not an object is the single `Scalar` case.
  - A JSON file whose top level is not an object is left out.
- The `ModuKit` configuration is an abstract `Json` value without floating-point numbers.
- ConfigStore.FormatOf computes the format from the path once. The loader keeps it in the `format` field, because the path never changes after construction.
- ConfigStore.FileName / ConfigStore.Suffix: `Path` is a plain string. The file name is the text after the last `/`, with no normalisation and no other separators. So a trailing slash is not dropped: for `cfg.json/` the model's file name and suffix are empty and the format is refused, while Python's `Path("cfg.json/")` has the name `cfg.json` and the suffix `.json`.
- PyText.LowerChar / PyText.Lower: folds the ASCII letters only. Python's `str.lower` also folds other letters, but no non-ASCII character lower-cases to a letter of `.json` or `.ini`, so format dispatch is unaffected.
- `_create_directories` is not modelled. Because it creates the module directory, the constructor runs discovery over that directory's listing; the missing-directory branch of `_load_modules` is modelled in `LoadModules` itself.
- Every `print` diagnostic and the `input()` loop of `_run_cli` are left out, along with `_show_help` and `_list_modules_cli`, which only print. Only the command step of `_run_cli` is modelled.
- `run()` is a fixed outcome of each instance: it returns or raises with a message. What a module does when it runs is outside this project.
- Exceptions outside `Exception`, such as `KeyboardInterrupt`, are left out.
- Attribute errors raised while `list_modules` reads a `ModuleInfo` are left out; info is a record with the three fields.
- The `enabled_modules` and `enabled` allow-lists are not used as a filter, because the source never consults them.
- `get(section, key)` and `get_section(section)` without a default return None. The model always takes a default (a string for `get`, an `Entry` for `get_section`), so a call that relies on `default=None` is not expressed.
- `get_section` returns the loader's own section dict, so a caller can change a section through it. The model returns the entry as a value, so this aliasing is not captured.
- ConfigStore.ConfigLoader.Set: under INI, `configparser` refuses a value whose `%` does not start an interpolation (such as `"50%"`). `_save_config` then raises at the assignment into the parser, after `set` has already changed the in-memory document, so memory and file differ. The model's INI save accepts every string, so `Set` never fails this way, and its "on failure nothing changes" does not cover this case.
- `get_config` returns the loader's own dict, so a caller can change the loader's state through it. The model returns the document as a value, so this aliasing is not captured.
- ModuKitApp.ScanOrder: stated for distinct candidate names, because a directory lists each name once. With repeated names, a later admissible candidate replaces the earlier entry in place, and `ModuKitApp.ScanStores` states that case.

Notes on the code:

- `ModuKit` reads its own `config.json` and does not use `ConfigLoader`.
- `ConfigParser.read` skips a file it cannot open, such as a directory or a file without read permission, without raising. `_load_ini_config` then returns an empty document and writes no default. In the model this is `ParseOk([])` for the INI parser. `_load_json_config` sends the same file to its default branch, which is `ParseErr` for the JSON parser.
- `set` stores the value as given. Only the INI save converts it with `str`.
- `set` into a section that holds a non-dict value raises.
