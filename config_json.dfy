/**
 * `config.json` as the program sees it. Reading and writing the file and JSON
 * encoding are not modelled: the file is one of four states, and a parsed
 * document is the record of the keys the program reads.
 */
module ConfigJson {
  import opened Wrappers

  /**
   * A parsed config document. `folders` and `childNames` are the index-aligned
   * lists under the keys `folders` and `child_names`; `folderPath` is the
   * older single-folder key `folder_path`. A missing key is `None`.
   */
  datatype Document = Document(
    folders: Option<seq<string>>,
    childNames: Option<seq<string>>,
    folderPath: Option<string>)

  /** The state of `config.json` on disk. */
  datatype FileState =
    | Absent               // no such file
    | Empty                // the file exists and has size 0
    | Malformed            // the file exists, is not empty and is not valid JSON
    | Holds(doc: Document) // the file parses to `doc`

  /** Exceptions that escape from reading the config. */
  datatype ConfigError =
    | DecodeError          // `json.JSONDecodeError`
    | KeyError(key: string)

  /** The document written when there is no usable config: `{"folders": [], "child_names": []}`. */
  const EmptyConfig: Document := Document(Some([]), Some([]), None)

  /** No path occurs twice in `s`. */
  predicate NoDuplicates(s: seq<string>) {
    forall i, j :: 0 <= i < j < |s| ==> s[i] != s[j]
  }

  /**
   * The invariant the program keeps for the config it writes: both lists are
   * present, have equal length, and `folders` holds no duplicate path.
   */
  predicate WellFormed(d: Document) {
    && d.folders.Some? && d.childNames.Some?
    && |d.folders.value| == |d.childNames.value|
    && NoDuplicates(d.folders.value)
  }

  /** The file after a write attempt: a successful update replaces it, an exception leaves it alone. */
  function Written(file: FileState, r: Result<Document, ConfigError>): (after: FileState)
    ensures r.Success? ==> after == Holds(r.value)
    ensures r.Failure? ==> after == file
  {
    match r
    case Success(d) => Holds(d)
    case Failure(_) => file
  }
}
