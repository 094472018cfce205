/** Data model shared by the scanner, the planner and the executor:
    file records, snapshots, changes, planned actions, conflict resolutions
    and the messages exchanged between the engine and its caller. */
module Models {

  type Byte = bv8
  type Bytes = seq<Byte>

  /** One path component; a path is the sequence of its components. */
  type Name = string
  type Path = seq<Name>

  /** Hex rendering of a content digest. */
  type Hash = string

  /** A file modification time. */
  type Time = int

  datatype Option<T> = None | Some(value: T)

  /** The error kinds that abort a run. */
  datatype Error =
    | NoLocalFolder
    | NoUsbDrive
    | InvalidFolderName
    | CorruptMetadata
    | MissingFile(path: Path)

  datatype Result<T> = Ok(value: T) | Err(error: Error)

  /** What a snapshot records about one file. */
  datatype FileInfo = FileInfo(path: Path, hash: Hash, modified: Time, size: nat)

  /** A snapshot of one tree: relative path to record. */
  datatype SyncData = SyncData(files: map<Path, FileInfo>)

  const EmptySyncData: SyncData := SyncData(map[])

  /** A difference between two snapshots, as reported by the change detector. */
  datatype FileChange = Added(path: Path) | Modified(path: Path) | Removed(path: Path)

  datatype SyncAction =
    | LocalToRemote(path: Path)
    | RemoteToLocal(path: Path)
    | DeleteLocal(path: Path)
    | DeleteRemote(path: Path)
    | Conflict(path: Path)

  datatype Resolution = KeepLocal | KeepRemote | Skip

  /** The content of a log message; timestamps and wording are not modelled. */
  datatype Note =
    | NoChanges
    | Planned(count: nat)
    | CopiedToRemote(path: Path)
    | CopiedToLocal(path: Path)
    | DeletedRemote(path: Path)
    | DeletedLocal(path: Path)
    | DeletionCancelled(path: Path)
    | ResolvedKeepLocal(path: Path)
    | ResolvedKeepRemote(path: Path)
    | SkippedConflict(path: Path)
    | Failure(error: Error)
    | StoppedByUser

  /** Messages in both directions between the engine and its caller
      (progress reports are not modelled). */
  datatype SyncMessage =
    | Log(note: Note)
    | ConfirmDeletion(target: Path)
    | DeletionConfirmed(confirmed: bool)
    | AskForConflictResolution(path: Path)
    | ConflictResolved(resolution: Resolution)
    | Complete
    | Stop
    | Stopped

  /** Name of the persisted baseline, kept in the mirror folder. */
  const METADATA_FILE_NAME: Name := ".syncu_metadata.json"
  /** Name of the durable log, kept in the mirror folder. */
  const LOG_FILE_NAME: Name := ".syncu_log.txt"

  /** The last component of a path, if it has one: a root (empty) path and a
      path ending in ".." have none. */
  function FileName(p: Path): Option<Name>
  {
    if p == [] || p[|p| - 1] == ".." then None else Some(p[|p| - 1])
  }

  /** Files the engine keeps for itself, recognised by name at any depth. */
  predicate IsControlFile(p: Path)
  {
    FileName(p) == Some(METADATA_FILE_NAME) || FileName(p) == Some(LOG_FILE_NAME)
  }
}
