/**
 * monitor.py: the watchdog event handler, the notification text and the
 * legacy single-folder lookup.
 */
module Monitor {
  import opened Wrappers
  import opened Paths
  import opened ConfigJson

  /** The fixed notification title. */
  const Title: string := "Please resave the records"

  /** The icon passed to the notification API. */
  const AppIcon: string := "notif.ico"

  /** How long the notification stays up, in seconds. */
  const Timeout: nat := 15

  /** The arguments handed to the OS notification API. */
  datatype Notification = Notification(title: string, message: string, appIcon: string, timeout: nat)

  /**
   * `notify`: the notification for a new file `filePath` in the watched folder
   * `monitoredFolder`. Title, icon and timeout are fixed; the message names
   * the file without its directory and last extension, then the folder's
   * last component.
   */
  function Notify(filePath: string, monitoredFolder: string): (n: Notification)
    ensures n.title == Title && n.appIcon == AppIcon && n.timeout == Timeout
  {
    Notification(Title, FileName(filePath) + " in " + Basename(monitoredFolder), AppIcon, Timeout)
  }

  /**
   * For a file `stem.ext` created directly in `folder`, the message is
   * `stem in <last component of folder>`.
   */
  lemma NotifyFileInFolder(folder: string, stem: string, ext: string)
    requires Sep !in stem && Sep !in ext && ExtSep !in ext
    requires HasNonDot(stem, 0, |stem|)
    ensures Notify(folder + [Sep] + stem + [ExtSep] + ext, folder).message
            == stem + " in " + Basename(folder)
  {
    var name := stem + [ExtSep] + ext;
    assert Sep !in name by {
      forall j | 0 <= j < |name| ensures name[j] != Sep {
        if j < |stem| { assert name[j] == stem[j]; }
        else if j > |stem| { assert name[j] == ext[j - |stem| - 1]; }
      }
    }
    assert folder + [Sep] + stem + [ExtSep] + ext == folder + [Sep] + name;
    BasenameOfJoin(folder, name);
    SplitExtStripsLastExtension(stem, ext);
  }

  /** `/tmp/a/report.pdf` watched in `/tmp/a` gives "report in a". */
  lemma NotifyReportInA()
    ensures Notify("/tmp/a/report.pdf", "/tmp/a").message == "report in a"
  {
    ReportPathSplits("/tmp/a/report.pdf", "/tmp/a");
    NotifyReportInFolder("/tmp/a");
    ReportMessageJoined();
  }

  /** The path of the example splits into folder, stem and extension. */
  lemma ReportPathSplits(p: string, folder: string)
    requires p == "/tmp/a/report.pdf" && folder == "/tmp/a"
    ensures p == folder + [Sep] + "report" + [ExtSep] + "pdf"
  {
  }

  /** The example's message, for the path written as a join. */
  lemma NotifyReportInFolder(folder: string)
    requires folder == "/tmp/a"
    ensures Notify(folder + [Sep] + "report" + [ExtSep] + "pdf", folder).message == "report" + " in " + "a"
  {
    assert folder == "/tmp" + [Sep] + "a";
    BasenameOfJoin("/tmp", "a");
    assert "report"[0] != ExtSep;
    NotifyFileInFolder(folder, "report", "pdf");
  }

  /** The example's message pieces, joined. */
  lemma ReportMessageJoined()
    ensures "report" + " in " + "a" == "report in a"
  {
  }

  /**
   * A creation event as watchdog passes it to `on_created`. Modification,
   * deletion and move events go to the handlers `FileEventHandler` inherits,
   * which do nothing, so they never reach the model.
   */
  datatype CreatedEvent = CreatedEvent(srcPath: string, isDirectory: bool)

  /** One invocation of the handler's callback: `notify_callback(file_path, monitored_folder)`. */
  datatype Call = Call(filePath: string, monitoredFolder: string)

  /**
   * The callbacks the program builds: `lambda path, folder=F: notify(path, folder)`.
   * `defaultFolder` is the value `F` bound when the lambda was created.
   */
  datatype NotifyCallback = NotifyWithDefault(defaultFolder: string)

  /** Calling the callback; `folder` is `None` when the caller leaves the second argument out. */
  function Invoke(cb: NotifyCallback, filePath: string, folder: Option<string>): (n: Notification)
    ensures folder.Some? ==> n == Notify(filePath, folder.value)
    ensures folder.None? ==> n == Notify(filePath, cb.defaultFolder)
  {
    Notify(filePath, folder.GetOr(cb.defaultFolder))
  }

  /**
   * The callback invocations `on_created` makes for the events `events`, in
   * order, on a handler watching `monitoredFolder`: directory creations are
   * dropped, each file creation gives one call.
   */
  function Dispatch(monitoredFolder: string, events: seq<CreatedEvent>): (r: seq<Call>)
    ensures |r| <= |events|
  {
    if events == [] then []
    else
      var e := events[|events| - 1];
      Dispatch(monitoredFolder, events[..|events| - 1])
        + (if e.isDirectory then [] else [Call(e.srcPath, monitoredFolder)])
  }

  /** Dispatching a concatenation dispatches each part in turn. */
  lemma {:induction false} DispatchAppend(folder: string, a: seq<CreatedEvent>, b: seq<CreatedEvent>)
    ensures Dispatch(folder, a + b) == Dispatch(folder, a) + Dispatch(folder, b)
    decreases |b|
  {
    if b == [] {
      assert a + b == a;
    } else {
      var b' := b[..|b| - 1];
      assert (a + b)[..|a + b| - 1] == a + b';
      DispatchAppend(folder, a, b');
    }
  }

  /**
   * A call is made exactly for each file (non-directory) creation, with that
   * event's path and the handler's own folder.
   */
  lemma {:induction false} DispatchCalls(folder: string, events: seq<CreatedEvent>, c: Call)
    ensures c in Dispatch(folder, events) <==>
            c.monitoredFolder == folder && CreatedEvent(c.filePath, false) in events
    decreases |events|
  {
    if events != [] {
      var init := events[..|events| - 1];
      DispatchCalls(folder, init, c);
      assert events == init + [events[|events| - 1]];
    }
  }

  /** Each file creation produces exactly one call; a directory creation produces none. */
  lemma DispatchOne(folder: string, e: CreatedEvent)
    ensures Dispatch(folder, [e]) == if e.isDirectory then [] else [Call(e.srcPath, folder)]
  {
    assert [e][..0] == [];
  }

  /** `FileEventHandler`: holds the callback and the watched folder fixed at construction. */
  class FileEventHandler {
    const notifyCallback: NotifyCallback
    const monitoredFolder: string
    /** The callback invocations made so far, in order. */
    var calls: seq<Call>

    constructor (notifyCallback: NotifyCallback, monitoredFolder: string)
      ensures this.notifyCallback == notifyCallback && this.monitoredFolder == monitoredFolder
      ensures calls == []
    {
      this.notifyCallback := notifyCallback;
      this.monitoredFolder := monitoredFolder;
      calls := [];
    }

    /** The notifications the callback has shown, one per call. */
    function Shown(): (ns: seq<Notification>)
      reads this
      ensures |ns| == |calls|
      ensures forall k :: 0 <= k < |calls| ==>
                ns[k] == Notify(calls[k].filePath, calls[k].monitoredFolder)
    {
      seq(|calls|, k requires 0 <= k < |calls| reads this =>
        Invoke(notifyCallback, calls[k].filePath, Some(calls[k].monitoredFolder)))
    }

    /** `on_created`: a file creation calls back once with its path and the watched folder. */
    method OnCreated(event: CreatedEvent)
      modifies this
      ensures calls == old(calls) + Dispatch(monitoredFolder, [event])
      ensures event.isDirectory ==> calls == old(calls)
      ensures !event.isDirectory ==> calls == old(calls) + [Call(event.srcPath, monitoredFolder)]
    {
      DispatchOne(monitoredFolder, event);
      if !event.isDirectory {
        calls := calls + [Call(event.srcPath, monitoredFolder)];
      }
    }
  }

  /**
   * The part of `monitor_folder` before its idle loop: a handler for `path`
   * with the given callback (the observer subscription itself is not modelled).
   */
  method MonitorFolder(path: string, notifyCallback: NotifyCallback) returns (h: FileEventHandler)
    ensures fresh(h)
    ensures h.monitoredFolder == path && h.notifyCallback == notifyCallback && h.calls == []
  {
    h := new FileEventHandler(notifyCallback, path);
  }

  /**
   * `load_folder_path`: the `folder_path` entry of the config, or `None` when
   * the key is absent, the file is missing or it does not parse.
   */
  function LoadFolderPath(file: FileState): (r: Option<string>)
    ensures r.Some? <==> file.Holds? && file.doc.folderPath.Some?
    ensures r.Some? ==> r.value == file.doc.folderPath.value
  {
    match file
    case Absent => None
    case Empty => None
    case Malformed => None
    case Holds(d) => d.folderPath
  }
}
