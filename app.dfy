/**
 * main.py: the folder registry behind the window. Choosing a folder starts a
 * watch and records it in `config.json`; at startup every recorded folder
 * that still exists gets a watch again.
 */
module App {
  import opened Wrappers
  import opened Paths
  import opened ConfigJson
  import opened Monitor

  /**
   * A started watch: the folder, the label shown in the list, and the callback
   * handed to `monitor_folder` together with the folder.
   */
  datatype Watch = Watch(path: string, displayName: string, callback: NotifyCallback)

  /** The watch the program starts for `fullPath`: its callback's default folder is bound to `fullPath` itself. */
  function StartWatch(fullPath: string, childName: string): (w: Watch)
    ensures w.path == fullPath && w.displayName == childName
    ensures w.callback.defaultFolder == fullPath
  {
    Watch(fullPath, childName, NotifyWithDefault(fullPath))
  }

  /**
   * The notifications a watch shows for a stream of events: `monitor_folder`
   * builds the handler with the watch's own folder, the handler calls back
   * for each file creation, and the callback runs `notify`.
   */
  function WatchNotifications(w: Watch, events: seq<CreatedEvent>): (ns: seq<Notification>)
    ensures |ns| == |Dispatch(w.path, events)|
  {
    var calls := Dispatch(w.path, events);
    seq(|calls|, k requires 0 <= k < |calls| =>
      Invoke(w.callback, calls[k].filePath, Some(calls[k].monitoredFolder)))
  }

  /**
   * A watch the program starts reports each new file under its own folder:
   * the notifications are exactly those for the file creations, each naming
   * `fullPath`, whatever other watches exist.
   */
  lemma WatchNotifiesOwnFolder(fullPath: string, childName: string, events: seq<CreatedEvent>, n: Notification)
    ensures n in WatchNotifications(StartWatch(fullPath, childName), events) <==>
            exists p :: CreatedEvent(p, false) in events && n == Notify(p, fullPath)
  {
    var w := StartWatch(fullPath, childName);
    var calls := Dispatch(fullPath, events);
    var ns := WatchNotifications(w, events);
    if n in ns {
      var k :| 0 <= k < |ns| && ns[k] == n;
      assert calls[k] in calls;
      DispatchCalls(fullPath, events, calls[k]);
    }
    if p :| CreatedEvent(p, false) in events && n == Notify(p, fullPath) {
      DispatchCalls(fullPath, events, Call(p, fullPath));
      var k :| 0 <= k < |calls| && calls[k] == Call(p, fullPath);
      assert ns[k] == n;
    }
  }

  /**
   * `update_config_file` as a function of the file it finds: start from the
   * empty config when there is no file, then append `fullPath` and
   * `childName` unless `fullPath` is already recorded. `json.load` fails on an
   * empty or malformed file; `config["folders"]` fails when the key is absent,
   * and `config["child_names"]` is looked up only when appending.
   */
  function UpdatedConfig(file: FileState, fullPath: string, childName: string): (r: Result<Document, ConfigError>)
    ensures file.Absent? ==> r == Success(Document(Some([fullPath]), Some([childName]), None))
    ensures file.Empty? || file.Malformed? ==> r == Failure(DecodeError)
    ensures r.Success? ==> r.value.folders.Some? && fullPath in r.value.folders.value
    ensures r.Success? && file.Holds? ==> r.value.folderPath == file.doc.folderPath
  {
    match file
    case Absent => Success(Document(Some([fullPath]), Some([childName]), None))
    case Empty => Failure(DecodeError)
    case Malformed => Failure(DecodeError)
    case Holds(d) =>
      if d.folders.None? then Failure(KeyError("folders"))
      else if fullPath in d.folders.value then Success(d)
      else if d.childNames.None? then Failure(KeyError("child_names"))
      else Success(d.(folders := Some(d.folders.value + [fullPath]),
                      childNames := Some(d.childNames.value + [childName])))
  }

  /** A recorded path leaves the config as it is, `child_names` included. */
  lemma UpdateKnownPathIsNoOp(d: Document, fullPath: string, childName: string)
    requires d.folders.Some? && fullPath in d.folders.value
    ensures UpdatedConfig(Holds(d), fullPath, childName) == Success(d)
  {
  }

  /**
   * A new path is appended to `folders` and its name to `child_names`;
   * existing entries keep their order and values, other keys are untouched.
   */
  lemma UpdateNewPathAppends(d: Document, fullPath: string, childName: string)
    requires d.folders.Some? && d.childNames.Some? && fullPath !in d.folders.value
    ensures UpdatedConfig(Holds(d), fullPath, childName)
            == Success(Document(Some(d.folders.value + [fullPath]), Some(d.childNames.value + [childName]), d.folderPath))
  {
  }

  /** Updating keeps the config well formed: aligned lists, no duplicate folder. */
  lemma UpdatePreservesWellFormed(file: FileState, fullPath: string, childName: string)
    requires file.Absent? || (file.Holds? && WellFormed(file.doc))
    ensures UpdatedConfig(file, fullPath, childName).Success?
    ensures WellFormed(UpdatedConfig(file, fullPath, childName).value)
  {
    if file.Holds? && fullPath !in file.doc.folders.value {
      var fs := file.doc.folders.value + [fullPath];
      assert forall i :: 0 <= i < |fs| - 1 ==> fs[i] == file.doc.folders.value[i];
    }
  }

  /**
   * Adding the same folder twice is the same as adding it once: the written
   * config is a fixed point of the update.
   */
  lemma UpdateIdempotent(file: FileState, fullPath: string, childName: string)
    requires UpdatedConfig(file, fullPath, childName).Success?
    ensures var d := UpdatedConfig(file, fullPath, childName).value;
            UpdatedConfig(Holds(d), fullPath, childName) == Success(d)
  {
  }

  /** Updating never touches the legacy `folder_path` key that `load_folder_path` reads. */
  lemma UpdateKeepsFolderPath(file: FileState, fullPath: string, childName: string)
    ensures var r := UpdatedConfig(file, fullPath, childName);
            LoadFolderPath(Written(file, r)) == LoadFolderPath(file)
  {
  }

  /** Python's `zip`: pairs at equal indices, cut to the shorter list. */
  function Zip(folders: seq<string>, childNames: seq<string>): (r: seq<(string, string)>)
    ensures |r| == if |folders| <= |childNames| then |folders| else |childNames|
    ensures forall i :: 0 <= i < |r| ==> r[i] == (folders[i], childNames[i])
  {
    if |folders| == 0 || |childNames| == 0 then []
    else [(folders[0], childNames[0])] + Zip(folders[1..], childNames[1..])
  }

  /** The watches started for `pairs`, in order: one per pair whose path exists. */
  function Selected(pairs: seq<(string, string)>, pathExists: string -> bool): (r: seq<Watch>)
    ensures |r| <= |pairs|
  {
    if pairs == [] then []
    else
      var last := pairs[|pairs| - 1];
      Selected(pairs[..|pairs| - 1], pathExists)
        + (if pathExists(last.0) then [StartWatch(last.0, last.1)] else [])
  }

  /**
   * A watch is started exactly for each pair whose path exists, labelled with
   * that pair's name and bound to that pair's path.
   */
  lemma {:induction false} SelectedWatches(pairs: seq<(string, string)>, pathExists: string -> bool, w: Watch)
    ensures w in Selected(pairs, pathExists) <==>
            exists i :: 0 <= i < |pairs| && pathExists(pairs[i].0) && w == StartWatch(pairs[i].0, pairs[i].1)
    decreases |pairs|
  {
    if pairs != [] {
      var init := pairs[..|pairs| - 1];
      SelectedWatches(init, pathExists, w);
      if w in Selected(init, pathExists) {
        var i :| 0 <= i < |init| && pathExists(init[i].0) && w == StartWatch(init[i].0, init[i].1);
        assert pairs[i] == init[i];
      }
      if i :| 0 <= i < |pairs| && pathExists(pairs[i].0) && w == StartWatch(pairs[i].0, pairs[i].1) {
        if i < |init| {
          assert pairs[i] == init[i];
        }
      }
    }
  }

  /** Selection keeps the order of the pairs: selecting a concatenation selects each part. */
  lemma {:induction false} SelectedAppend(a: seq<(string, string)>, b: seq<(string, string)>, pathExists: string -> bool)
    ensures Selected(a + b, pathExists) == Selected(a, pathExists) + Selected(b, pathExists)
    decreases |b|
  {
    if b == [] {
      assert a + b == a;
    } else {
      var b' := b[..|b| - 1];
      assert (a + b)[..|a + b| - 1] == a + b';
      SelectedAppend(a, b', pathExists);
    }
  }

  /** When every path exists, every pair gets its watch, in order. */
  lemma {:induction false} SelectedAllWhenAllExist(pairs: seq<(string, string)>, pathExists: string -> bool)
    requires forall i :: 0 <= i < |pairs| ==> pathExists(pairs[i].0)
    ensures |Selected(pairs, pathExists)| == |pairs|
    ensures forall i :: 0 <= i < |pairs| ==> Selected(pairs, pathExists)[i] == StartWatch(pairs[i].0, pairs[i].1)
    decreases |pairs|
  {
    if pairs != [] {
      SelectedAllWhenAllExist(pairs[..|pairs| - 1], pathExists);
    }
  }

  /**
   * The watches `load_and_monitor_folders` starts for a parsed config: missing
   * keys read as empty lists, paths and names are zipped, and each existing
   * path gets a watch.
   */
  function Restored(d: Document, pathExists: string -> bool): (r: seq<Watch>)
    ensures |r| <= |d.folders.GetOr([])| && |r| <= |d.childNames.GetOr([])|
  {
    Selected(Zip(d.folders.GetOr([]), d.childNames.GetOr([])), pathExists)
  }

  /** A config missing either key restores nothing and does not fail. */
  lemma RestoreMissingKeys(d: Document, pathExists: string -> bool)
    requires d.folders.None? || d.childNames.None?
    ensures Restored(d, pathExists) == []
  {
  }

  /**
   * The watches restored from a config are exactly its aligned entries whose
   * path exists, each labelled with its own name and bound to its own path.
   */
  lemma RestoredWatches(d: Document, pathExists: string -> bool, w: Watch)
    ensures w in Restored(d, pathExists) <==>
            exists i :: 0 <= i < |d.folders.GetOr([])| && i < |d.childNames.GetOr([])|
                     && pathExists(d.folders.GetOr([])[i])
                     && w == StartWatch(d.folders.GetOr([])[i], d.childNames.GetOr([])[i])
  {
    var fs, cs := d.folders.GetOr([]), d.childNames.GetOr([]);
    var pairs := Zip(fs, cs);
    SelectedWatches(pairs, pathExists, w);
    if i :| 0 <= i < |pairs| && pathExists(pairs[i].0) && w == StartWatch(pairs[i].0, pairs[i].1) {
      assert i < |fs| && i < |cs| && pathExists(fs[i]) && w == StartWatch(fs[i], cs[i]);
    }
    if i :| 0 <= i < |fs| && i < |cs| && pathExists(fs[i]) && w == StartWatch(fs[i], cs[i]) {
      assert pairs[i] == (fs[i], cs[i]);
    }
  }

  /**
   * A folder added to a well-formed (or missing) config is watched again at
   * the next start if it still exists.
   */
  lemma RestoreAfterAdd(file: FileState, fullPath: string, childName: string, pathExists: string -> bool)
    requires file.Absent? || (file.Holds? && WellFormed(file.doc))
    requires pathExists(fullPath)
    ensures UpdatedConfig(file, fullPath, childName).Success?
    ensures exists w :: w in Restored(UpdatedConfig(file, fullPath, childName).value, pathExists) && w.path == fullPath
  {
    UpdatePreservesWellFormed(file, fullPath, childName);
    var d := UpdatedConfig(file, fullPath, childName).value;
    var fs, cs := d.folders.value, d.childNames.value;
    var i :| 0 <= i < |fs| && fs[i] == fullPath;
    var w := StartWatch(fs[i], cs[i]);
    RestoredWatches(d, pathExists, w);
    assert w in Restored(d, pathExists);
  }

  /** The labels shown in the folder list for the watches `ws`. */
  function Labels(ws: seq<Watch>): (ls: seq<string>)
    ensures |ls| == |ws|
    ensures forall k :: 0 <= k < |ws| ==> ls[k] == ws[k].displayName
  {
    seq(|ws|, k requires 0 <= k < |ws| => ws[k].displayName)
  }

  /** Listing two runs of watches lists each run in turn. */
  lemma LabelsAppend(a: seq<Watch>, b: seq<Watch>)
    ensures Labels(a + b) == Labels(a) + Labels(b)
  {
  }

  /**
   * The config file after the startup check: a missing or empty file is
   * replaced by the empty config; anything else is left as it is.
   */
  function InitializedFile(file: FileState): (after: FileState)
    ensures file.Absent? || file.Empty? ==> after == Holds(EmptyConfig)
    ensures file.Malformed? || file.Holds? ==> after == file
  {
    if file.Absent? || file.Empty? then Holds(EmptyConfig) else file
  }

  /** After the startup check, a missing config holds no `folder_path`. */
  lemma InitializedHasNoFolderPath(file: FileState)
    requires file.Absent? || file.Empty?
    ensures LoadFolderPath(InitializedFile(file)) == None
  {
  }

  /** `ConfigWindow`: the folder list it shows and the watches it has started. */
  class ConfigWindow {
    /** The labels in the folder list widget, in insertion order. */
    var items: seq<string>
    /** The watches started so far (one background thread each), in order. */
    var watches: seq<Watch>

    /** The folder list shows exactly the names of the started watches, in order. */
    predicate Valid()
      reads this
    {
      items == Labels(watches)
    }

    /** The window as `init_ui` leaves it: an empty folder list, nothing watched. */
    constructor ()
      ensures Valid()
      ensures items == [] && watches == []
    {
      items := [];
      watches := [];
    }

    /**
     * `choose_folder`: `selection` is what the folder dialog returned (empty
     * when cancelled). A non-empty selection is listed under its last
     * component, watched, and recorded in the config; the watch starts before
     * the config is read, so it runs even when the update fails.
     */
    method ChooseFolder(selection: string, file: FileState) returns (after: FileState, error: Option<ConfigError>)
      requires Valid()
      modifies this
      ensures Valid()
      ensures selection == [] ==> after == file && error == None && items == old(items) && watches == old(watches)
      ensures selection != [] ==>
                var childName := Basename(selection);
                var r := UpdatedConfig(file, selection, childName);
                && items == old(items) + [childName]
                && watches == old(watches) + [StartWatch(selection, childName)]
                && after == Written(file, r)
                && error == (if r.Failure? then Some(r.error) else None)
    {
      after, error := file, None;
      if selection != [] {
        var childName := Basename(selection);
        items := items + [childName];
        LabelsAppend(watches, [StartWatch(selection, childName)]);
        watches := watches + [StartWatch(selection, childName)];
        var r := UpdateConfigFile(file, selection, childName);
        match r {
          case Success(d) => after := Holds(d);
          case Failure(e) => error := Some(e);
        }
      }
    }

    /**
     * `update_config_file`: read the config (or start empty), append the pair
     * unless the path is known, and return what is written back.
     */
    method UpdateConfigFile(file: FileState, fullPath: string, childName: string) returns (r: Result<Document, ConfigError>)
      ensures r == UpdatedConfig(file, fullPath, childName)
    {
      var config: Document;
      match file {
        case Absent => config := EmptyConfig;
        case Empty => return Failure(DecodeError);
        case Malformed => return Failure(DecodeError);
        case Holds(d) => config := d;
      }
      if config.folders.None? {
        return Failure(KeyError("folders"));
      }
      if fullPath !in config.folders.value {
        config := config.(folders := Some(config.folders.value + [fullPath]));
        if config.childNames.None? {
          return Failure(KeyError("child_names"));
        }
        config := config.(childNames := Some(config.childNames.value + [childName]));
        assert file.Absent? ==> config.folders.value == [fullPath] && config.childNames.value == [childName];
      }
      return Success(config);
    }

    /**
     * `load_and_monitor_folders`: make sure the config exists, read it, and
     * start a watch, and list its name, for every zipped pair whose path
     * exists. A malformed file raises before anything is started.
     */
    method LoadAndMonitorFolders(file: FileState, pathExists: string -> bool) returns (after: FileState, error: Option<ConfigError>)
      requires Valid()
      modifies this
      ensures Valid()
      ensures after == InitializedFile(file)
      ensures error == (if after.Malformed? then Some(DecodeError) else None)
      ensures error.None? ==> (watches == old(watches) + Restored(after.doc, pathExists)
                               && items == old(items) + Labels(Restored(after.doc, pathExists)))
      ensures error.Some? ==> watches == old(watches) && items == old(items)
    {
      after := InitializedFile(file);
      if after.Malformed? {
        return after, Some(DecodeError);
      }
      error := None;
      var folders := after.doc.folders.GetOr([]);
      var childNames := after.doc.childNames.GetOr([]);
      var pairs := Zip(folders, childNames);
      var i := 0;
      while i < |pairs|
        invariant 0 <= i <= |pairs|
        invariant watches == old(watches) + Selected(pairs[..i], pathExists)
        invariant items == old(items) + Labels(Selected(pairs[..i], pathExists))
      {
        var (fullPath, childName) := pairs[i];
        assert pairs[..i + 1][..i] == pairs[..i];
        if pathExists(fullPath) {
          items := items + [childName];
          watches := watches + [StartWatch(fullPath, childName)];
        }
        i := i + 1;
      }
      assert pairs[..|pairs|] == pairs;
      LabelsAppend(old(watches), Restored(after.doc, pathExists));
    }
  }
}
