/** `ConfigManager`, identical in both revisions: the baseline of process
    names to keep lives in `config.yaml` under the key `saved_processes`.
    The file itself is not modelled; its state is one of the values below,
    and a write either succeeds or fails leaving some state behind.
 */
module Config {
  import opened Wrappers

  /** The state of the configuration file as `load_processes` finds it. */
  datatype ConfigFile =
    | Absent
      /** The file exists but opening, reading or parsing it raises. */
    | Unreadable
      /** A YAML mapping, with or without the `saved_processes` key. */
    | Document(savedProcesses: Option<seq<string>>)

  /** How the write of `save_processes` ends. A failed write may leave the
      file in any state (it is opened for writing before the dump). */
  datatype WriteOutcome = WriteOk | WriteFailed(leftBehind: ConfigFile)

  datatype SaveResult = SaveResult(ok: bool, file: ConfigFile)

  /** `load_processes`: the stored list when the file holds one, and the
      empty list on every failure or when the key is missing. */
  function LoadProcesses(file: ConfigFile): (r: seq<string>)
    ensures r != [] ==> file == Document(Some(r))
    ensures (file.Document? && file.savedProcesses.Some?) ==> r == file.savedProcesses.value
  {
    match file
    case Document(Some(list)) => list
    case _ => []
  }

  /** `save_processes`: true exactly when the write went through, and then
      the file holds exactly the given list. */
  function SaveProcesses(file: ConfigFile, names: seq<string>, write: WriteOutcome): (r: SaveResult)
    ensures r.ok <==> write.WriteOk?
    ensures r.ok ==> r.file == Document(Some(names))
    ensures !r.ok ==> r.file == write.leftBehind
  {
    match write
    case WriteOk => SaveResult(true, Document(Some(names)))
    case WriteFailed(left) => SaveResult(false, left)
  }
}
