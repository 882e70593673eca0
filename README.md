# Notifier: folder-watch registry and notification text

A Dafny model of the logic inside the Notifier desktop utility: a user picks
folders to watch, the program records them in `config.json`, re-establishes a
watch on every recorded folder that still exists at start-up, and shows a
notification "<file> in <folder>" under the title "Please resave the records"
whenever a file (not a directory) is created in a watched folder.

Modules:

- `Paths` (paths.dfy): POSIX `os.path.basename` and `os.path.splitext`, with
  `str.rfind` as `LastIndex`.
- `ConfigJson` (config_json.dfy): `config.json` as one of four file states
  (absent, empty, malformed, or holding a parsed document with optional
  `folders`, `child_names` and `folder_path` keys), the exceptions that escape
  when reading it, and the well-formedness invariant of a written config.
- `Monitor` (monitor.dfy, for monitor.py): `notify`'s title and message,
  the `FileEventHandler` class and its `on_created`, the callback the program
  builds, `monitor_folder`'s handler construction and `load_folder_path`.
- `App` (app.dfy, for main.py): the `ConfigWindow` class with its folder list
  and started watches, `choose_folder`, `update_config_file` and
  `load_and_monitor_folders`, each tied to specification functions
  (`UpdatedConfig`, `Zip`, `Selected`, `Restored`) whose properties are lemmas.
- `Wrappers` (wrappers.dfy): `Option` and `Result`.

File access and the operating system are parameters: the config file is a
`FileState` argument and the file written back is a result; `os.path.exists`
is the predicate `pathExists`; the folder dialog's answer is the `selection`
argument; the events watchdog passes to `on_created` are a sequence of
`CreatedEvent`s. Modification, deletion and move events go to handlers the
program does not override, which do nothing, so they are not represented.

Four behaviours of the code that a reader might expect to be otherwise:

- Only `load_and_monitor_folders` turns an empty or absent config into the
  empty config (main.py:107-109).
  `update_config_file` starts from the empty config only when the file is
  absent. An empty or malformed existing file makes `json.load` raise, so the
  update fails (`UpdatedConfig` returns `Failure(DecodeError)`).
- `update_config_file` indexes `config["folders"]` directly, so a config
  without that key raises `KeyError`. `config["child_names"]` is looked up
  only when a new path is appended. A known path therefore succeeds even when
  `child_names` is missing. The file is written only when no exception was
  raised.
- Only the folder-aware notifier exists in the code, so that is the one
  modelled.
- Choosing a folder that is already recorded (main.py:77-88) lists it a
  second time and starts a second watch on it, so every new file there gives
  two notifications. The config stays as it was (main.py:98). The contract of
  `ChooseFolder` states both effects, and `UpdateKnownPathIsNoOp` states the
  second.

## Model

| member | source | states |
|---|---|---|
| Paths.Basename | monitor.py:28 | the basename is the longest separator-free suffix: it holds no `/`, is a suffix of the path, and is the whole path or preceded by `/` |
| Paths.BasenameUnique | monitor.py:28 | any string with those three properties is the basename, so they characterise it completely |
| Paths.BasenameOfJoin | monitor.py:27-28 | the basename of `dir/name` is `name` for every separator-free `name` |
| Paths.SplitExt | monitor.py:27 | root + ext is the path; a non-empty ext starts with a dot and holds no other dot and no separator; it is split off only when the last component has a non-dot character before it |
| Paths.SplitExtFindsExtension | monitor.py:27 | conversely, whenever the last component has a dot preceded by a non-dot character, an extension is split off at the last dot |
| Paths.SplitExtStripsLastExtension | monitor.py:27 | `stem.ext` splits into `stem` and `.ext`: only the last extension goes |
| Paths.SplitExtLeadingDots | monitor.py:27 | leading dots never start an extension: `.bashrc`-style names stay whole |
| Paths.FileName | monitor.py:27 | the notification's file name holds no separator and is a prefix of the basename |
| Paths.TarGzKeepsInnerExtension | monitor.py:27 | `x.tar.gz` keeps `x.tar` |
| Monitor.Notify | monitor.py:20-38 | the title is always "Please resave the records", with icon `notif.ico` and timeout 15 |
| Monitor.NotifyFileInFolder | monitor.py:27-30 | for a file `stem.ext` created in `folder`, the message is `stem in <basename of folder>` |
| Monitor.NotifyReportInA | monitor.py:27-30 | `/tmp/a/report.pdf` watched in `/tmp/a` gives "report in a" |
| Monitor.Invoke | main.py:124 | the callback notifies for the folder it is given, and for its bound default folder when none is given |
| Monitor.Dispatch | monitor.py:16-19 | the handler makes at most one callback per creation event |
| Monitor.DispatchAppend | monitor.py:16-19 | events are handled one after another: dispatching a concatenation concatenates the calls |
| Monitor.DispatchCalls | monitor.py:16-19 | a call `(p, f)` is made if and only if `f` is the handler's folder and a file (non-directory) creation event for `p` reached `on_created` |
| Monitor.DispatchOne | monitor.py:17-19 | a directory creation gives no call; a file creation gives exactly the call `(src_path, monitored_folder)` |
| Monitor.FileEventHandler.constructor | monitor.py:11-14 | the callback and the monitored folder are fixed at construction; no call has been made |
| Monitor.FileEventHandler.Shown | monitor.py:19 | each recorded call shows exactly `notify(file_path, monitored_folder)` |
| Monitor.FileEventHandler.OnCreated | monitor.py:16-19 | a directory creation leaves the calls unchanged; a file creation appends exactly one call with the event's path and the construction-time folder |
| Monitor.MonitorFolder | monitor.py:40-41 | the handler watches the folder `monitor_folder` was given, with the given callback |
| Monitor.LoadFolderPath | monitor.py:55-63 | the `folder_path` value when the file parses and has the key; `None` when the key is absent, the file is missing or it does not parse |
| ConfigJson.Written | main.py:102-103 | the config is rewritten with the updated document on success and left alone when an exception escapes first |
| App.StartWatch | main.py:122-126 | a started watch's callback is bound to that watch's own path |
| App.WatchNotifications | monitor.py:40-43 | a watch shows one notification per callback its handler makes |
| App.WatchNotifiesOwnFolder | main.py:124 | a started watch shows a notification if and only if it is `notify(p, full_path)` for a file creation event `p`, with its own `full_path` whatever other watches exist |
| App.UpdatedConfig | main.py:90-103 | an absent file yields exactly `{folders: [full_path], child_names: [child_name]}`; an empty or malformed file fails to decode; on success the path is recorded and `folder_path` is kept |
| App.UpdateKnownPathIsNoOp | main.py:98-100 | a recorded path leaves both lists unchanged |
| App.UpdateNewPathAppends | main.py:98-100 | a new path appends exactly the path and the name; existing entries keep order and values |
| App.UpdatePreservesWellFormed | main.py:98-100 | equal lengths and duplicate-free `folders` are preserved, and the update cannot fail on such a config |
| App.UpdateIdempotent | main.py:98-103 | updating twice with the same pair gives the same config as once |
| App.UpdateKeepsFolderPath | main.py:102-103 | what `load_folder_path` reads is the same before and after any update |
| App.Zip | main.py:116 | `zip` pairs equal indices and has the length of the shorter list |
| App.Selected | main.py:116-117 | no more watches than pairs |
| App.SelectedWatches | main.py:116-126 | a watch is started if and only if it is `StartWatch(path, name)` for a pair whose path exists |
| App.SelectedAppend | main.py:116-117 | watches start in the order of the pairs |
| App.SelectedAllWhenAllExist | main.py:116-117 | when every path exists, pair `i` gets watch `i` |
| App.Restored | main.py:111-117 | restore starts at most min(len(folders), len(child_names)) watches |
| App.RestoreMissingKeys | main.py:113-114 | a missing `folders` or `child_names` key restores nothing and does not fail |
| App.RestoredWatches | main.py:113-126 | restored watches are exactly `(folders[i], child_names[i])` for indices below both lengths whose path exists, each bound to its own path |
| App.RestoreAfterAdd | main.py:90-126 | a folder added to a well-formed or absent config is watched again at the next start if it still exists |
| App.Labels | main.py:118-119 | the folder list shows each started watch's name, in order |
| App.InitializedFile | main.py:107-109 | a missing or empty config is replaced by `{folders: [], child_names: []}`; otherwise the file is left alone |
| App.InitializedHasNoFolderPath | main.py:107-109 | after that replacement `load_folder_path` finds nothing |
| App.ConfigWindow.constructor | main.py:47 | the window starts with an empty folder list and no watches, so the list shows exactly the started watches' names |
| App.ConfigWindow.ChooseFolder | main.py:75-88 | keeps the list equal to the started watches' names; an empty selection changes nothing; otherwise the list gains `basename(folder)`, a watch bound to `folder` starts, and the config is updated, with any exception reported after the watch started |
| App.ConfigWindow.UpdateConfigFile | main.py:90-103 | the document written back is `UpdatedConfig`, including its `KeyError` and decode-error cases |
| App.ConfigWindow.LoadAndMonitorFolders | main.py:105-126 | keeps the list equal to the started watches' names; the file is initialised as `InitializedFile` says; a malformed file raises and starts nothing; otherwise exactly `Restored` is appended to the watches and their names to the list |

## Left out

- The PyQt window, layout, themes (`toggle_mode`, `apply_dark_mode`, `apply_light_mode`), `closeEvent`, the tray icon and `main`: presentation only.
- Threads and the watchdog `Observer`: subscription, the idle `sleep` loop, and the stop/join on interrupt. A started watch is recorded as a `Watch` value, and the creation events it receives are an input sequence.
- The `plyer` notification call and the debug `print`s: foreign side effects. Only the arguments passed to the notification API are modelled.
- JSON encoding and decoding, and file reads and writes: the config is an abstract document. Keys other than `folders`, `child_names` and `folder_path` are not represented. The values under those keys are assumed to have the types the program writes: lists of strings and a string.
- Errors other than the decode error and `KeyError`: permission and I/O errors, and a JSON value of the wrong shape (`AttributeError`, `TypeError`). All of them propagate uncaught in the code.
- Windows path semantics (`\` separators, drive letters) in `basename` and `splitext`: only POSIX `/` is modelled.
- `ConfigWindow.__init__` calling `load_and_monitor_folders`: the constructor models the empty window, and `LoadAndMonitorFolders` is a separate step.
