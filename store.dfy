/** The metadata store and the durable log, both kept in the mirror folder:
    loading and saving the last-sync baseline, and appending log lines. */
module Store {
  import opened Models
  import opened Env

  /** Loads the baseline: a missing file is a first sync and yields the
      empty snapshot; a file that does not parse is an error. */
  function LoadSyncData(m: MetaFile): (r: Result<SyncData>)
    ensures m.Missing? ==> r == Ok(EmptySyncData)
    ensures m.Unparsable? ==> r == Err(CorruptMetadata)
    ensures m.Stored? ==> r == Ok(m.data)
  {
    match m
    case Missing => Ok(EmptySyncData)
    case Unparsable => Err(CorruptMetadata)
    case Stored(d) => Ok(d)
  }

  /** Saves the baseline, replacing what was stored. */
  function SaveSyncData(w: World, d: SyncData): (w': World)
    ensures LoadSyncData(w'.meta) == Ok(d)
    ensures w' == w.(meta := w'.meta)
  {
    w.(meta := Stored(d))
  }

  /** Appends exactly one line to the durable log and changes nothing else. */
  function WriteLogEntry(w: World, line: Note): (w': World)
    ensures w'.logFile == w.logFile + [line]
    ensures w' == w.(logFile := w'.logFile)
  {
    w.(logFile := w.logFile + [line])
  }
}
