/** One synchronisation run end to end: validate the two folders, load the
    baseline, scan both trees, plan, execute, rescan the local folder and
    save the new baseline, then tell the caller how the run ended. */
module Sync {
  import opened Models
  import opened Env
  import opened Store
  import opened Scanner
  import opened Planner
  import opened Executor

  // ----- Listing a tree -----

  /** How the directory walk presents a stored file. */
  function EntryOf(root: Path, p: Path, f: File): Entry
  {
    Entry(root + p, Some(Stat(Some(f.modified), |f.data|)), Some(f.data))
  }

  /** `entries` lists every file of `tree` under `root` exactly once, in
      the order of `keys`. */
  ghost predicate IsListing(root: Path, tree: Tree, entries: seq<Entry>, keys: seq<Path>)
  {
    && |keys| == |entries|
    && (forall i :: 0 <= i < |keys| ==> keys[i] in tree && entries[i] == EntryOf(root, keys[i], tree[keys[i]]))
    && (forall p :: p in tree ==> p in keys)
    && (forall i, j :: 0 <= i < j < |keys| ==> keys[i] != keys[j])
  }

  lemma PrefixCancel(root: Path, p: Path, q: Path)
    requires root + p == root + q
    ensures p == q
  {
    assert p == (root + p)[|root|..];
    assert q == (root + q)[|root|..];
  }

  /** Distinct files of a listing have distinct full paths. */
  lemma ListingPathsDistinct(root: Path, tree: Tree, entries: seq<Entry>, keys: seq<Path>)
    requires IsListing(root, tree, entries, keys)
    ensures forall i, j :: 0 <= i < j < |entries| ==> entries[i].path != entries[j].path
  {
    forall i, j | 0 <= i < j < |entries|
      ensures entries[i].path != entries[j].path
    {
      if root + keys[i] == root + keys[j] {
        PrefixCancel(root, keys[i], keys[j]);
      }
    }
  }

  /** The directory walk, in an order the file system chooses. */
  method ListFiles(root: Path, tree: Tree) returns (entries: seq<Entry>, ghost keys: seq<Path>)
    ensures IsListing(root, tree, entries, keys)
    ensures |entries| == |tree|
  {
    entries, keys := [], [];
    var todo := tree.Keys;
    while todo != {}
      invariant todo <= tree.Keys && |keys| == |entries|
      invariant |entries| + |todo| == |tree|
      invariant forall i :: 0 <= i < |keys| ==>
        keys[i] in tree && keys[i] !in todo && entries[i] == EntryOf(root, keys[i], tree[keys[i]])
      invariant forall p :: p in tree && p !in todo ==> p in keys
      invariant forall i, j :: 0 <= i < j < |keys| ==> keys[i] != keys[j]
      decreases todo
    {
      var p :| p in todo;
      entries := entries + [EntryOf(root, p, tree[p])];
      keys := keys + [p];
      todo := todo - {p};
    }
  }

  /** The scan of a whole tree, file by file: each file the per-entry
      rule keeps, with the record the rule gives it. */
  function ScanTree(root: Path, tree: Tree, last: SyncData, digest: Bytes -> Hash): map<Path, FileInfo>
  {
    map p | p in tree && ScanEntry(root, EntryOf(root, p, tree[p]), last, digest).Some? ::
      ScanEntry(root, EntryOf(root, p, tree[p]), last, digest).value.1
  }

  /** A listed file is keyed by its own relative path. */
  lemma EntryKey(root: Path, p: Path, f: File, last: SyncData, digest: Bytes -> Hash)
    ensures ScanEntry(root, EntryOf(root, p, f), last, digest).Some? ==>
      ScanEntry(root, EntryOf(root, p, f), last, digest).value.0 == p
  {
    var r := ScanEntry(root, EntryOf(root, p, f), last, digest);
    if r.Some? {
      PrefixCancel(root, r.value.0, p);
    }
  }

  /** Every record of a listing's scan is the tree scan's record. */
  lemma ListingScanInTree(root: Path, tree: Tree, entries: seq<Entry>, keys: seq<Path>,
                          last: SyncData, digest: Bytes -> Hash)
    requires IsListing(root, tree, entries, keys)
    ensures var m := Collect(root, entries, last, digest);
      forall p :: p in m ==> p in ScanTree(root, tree, last, digest) && ScanTree(root, tree, last, digest)[p] == m[p]
  {
    var m := Collect(root, entries, last, digest);
    RecordsComeFromEntries(root, entries, last, digest);
    forall p | p in m
      ensures p in ScanTree(root, tree, last, digest) && ScanTree(root, tree, last, digest)[p] == m[p]
    {
      var i :| 0 <= i < |entries| && ScanEntry(root, entries[i], last, digest) == Some((p, m[p]));
      EntryKey(root, keys[i], tree[keys[i]], last, digest);
    }
  }

  /** Every file the tree scan keeps is in a listing's scan. */
  lemma TreeScanInListing(root: Path, tree: Tree, entries: seq<Entry>, keys: seq<Path>,
                          last: SyncData, digest: Bytes -> Hash)
    requires IsListing(root, tree, entries, keys)
    ensures forall p :: p in ScanTree(root, tree, last, digest) ==> p in Collect(root, entries, last, digest)
  {
    ListingPathsDistinct(root, tree, entries, keys);
    ScanKeepsEveryKeptEntry(root, entries, last, digest);
    forall p | p in ScanTree(root, tree, last, digest)
      ensures p in Collect(root, entries, last, digest)
    {
      var i :| 0 <= i < |keys| && keys[i] == p;
      EntryKey(root, p, tree[p], last, digest);
    }
  }

  lemma MapsAgree(m: map<Path, FileInfo>, t: map<Path, FileInfo>)
    requires forall p :: p in m ==> p in t && t[p] == m[p]
    requires forall p :: p in t ==> p in m
    ensures m == t
  {
  }

  /** Scanning any listing of a tree gives the tree's scan: the walk's
      order does not matter. */
  lemma ScanOfListing(root: Path, tree: Tree, entries: seq<Entry>, keys: seq<Path>,
                      last: SyncData, digest: Bytes -> Hash)
    requires IsListing(root, tree, entries, keys)
    ensures Collect(root, entries, last, digest) == ScanTree(root, tree, last, digest)
  {
    var m := Collect(root, entries, last, digest);
    var t := ScanTree(root, tree, last, digest);
    ListingScanInTree(root, tree, entries, keys, last, digest);
    TreeScanInListing(root, tree, entries, keys, last, digest);
    MapsAgree(m, t);
  }

  /** The engine's own files in the mirror's sync folder as the walk
      meets them: the baseline once one exists, the log once a line was
      written. They are dropped by name before their metadata is read; the
      walk lists them among the mirror's files, and since they contribute
      nothing, listing them last changes only which polls they take. */
  function ControlEntries(mirrorRoot: Path, w: World): (r: seq<Entry>)
    ensures forall i :: 0 <= i < |r| ==> IsControlFile(r[i].path)
  {
    (if w.meta.Missing? then [] else [Entry(mirrorRoot + [METADATA_FILE_NAME], None, None)])
    + (if w.logFile == [] then [] else [Entry(mirrorRoot + [LOG_FILE_NAME], None, None)])
  }

  /** Entries the rule drops leave the scan as it is, wherever they come. */
  lemma {:induction false} CollectDropped(base: Path, entries: seq<Entry>, extra: seq<Entry>,
                                          last: SyncData, digest: Bytes -> Hash)
    requires forall i :: 0 <= i < |extra| ==> IsControlFile(extra[i].path)
    decreases |extra|
    ensures Collect(base, entries + extra, last, digest) == Collect(base, entries, last, digest)
  {
    if extra == [] {
      assert entries + extra == entries;
    } else {
      var init := extra[..|extra| - 1];
      assert (entries + extra)[..|entries + extra| - 1] == entries + init;
      CollectDropped(base, entries, init, last, digest);
    }
  }

  /** Every record of a fresh scan of a listed tree is one of the tree's
      files that is not a control file, with a fresh digest of its bytes,
      its modification time and its size. */
  lemma FreshScanRecords(root: Path, tree: Tree, entries: seq<Entry>, keys: seq<Path>, digest: Bytes -> Hash)
    requires IsListing(root, tree, entries, keys)
    ensures var m := Collect(root, entries, EmptySyncData, digest);
      forall p :: p in m ==>
        && p in tree && !IsControlFile(root + p)
        && m[p] == FileInfo(p, digest(tree[p].data), tree[p].modified, |tree[p].data|)
  {
    var m := Collect(root, entries, EmptySyncData, digest);
    RecordsComeFromEntries(root, entries, EmptySyncData, digest);
    forall p | p in m
      ensures p in tree && !IsControlFile(root + p)
      ensures m[p] == FileInfo(p, digest(tree[p].data), tree[p].modified, |tree[p].data|)
    {
      var i :| 0 <= i < |entries| && ScanEntry(root, entries[i], EmptySyncData, digest) == Some((p, m[p]));
      PrefixCancel(root, p, keys[i]);
    }
  }

  /** A fresh scan of a listed tree records every file of the tree that is
      not a control file. */
  lemma FreshScanComplete(root: Path, tree: Tree, entries: seq<Entry>, keys: seq<Path>, digest: Bytes -> Hash)
    requires IsListing(root, tree, entries, keys)
    ensures forall p :: p in tree && !IsControlFile(root + p) ==> p in Collect(root, entries, EmptySyncData, digest)
  {
    ListingPathsDistinct(root, tree, entries, keys);
    ScanKeepsEveryKeptEntry(root, entries, EmptySyncData, digest);
    forall p | p in tree && !IsControlFile(root + p)
      ensures p in Collect(root, entries, EmptySyncData, digest)
    {
      var i :| 0 <= i < |keys| && keys[i] == p;
      assert StripPrefix(root + p, root) == Some(p) by {
        PrefixCancel(root, StripPrefix(root + p, root).value, p);
      }
      assert ScanEntry(root, entries[i], EmptySyncData, digest).Some?;
    }
  }

  // ----- The run -----

  /** How the body of a run ended: with a result (true: stopped by the
      user), or still blocked waiting for a reply. */
  datatype BodyEnd = Done(result: Result<bool>) | Blocked

  /** The saved baseline is a fresh scan of the local folder (its
      non-control files, each with a fresh digest, its modification time
      and its size) with exactly the `skipped` paths left out. */
  ghost predicate SavedFreshScan(w: World, localRoot: Path, digest: Bytes -> Hash, skipped: set<Path>)
  {
    && w.meta.Stored?
    && (forall p :: p in w.meta.data.files ==>
          && p in w.local && !IsControlFile(localRoot + p) && p !in skipped
          && w.meta.data.files[p] == FileInfo(p, digest(w.local[p].data), w.local[p].modified, |w.local[p].data|))
    && (forall p :: p in w.local && !IsControlFile(localRoot + p) && p !in skipped ==> p in w.meta.data.files)
  }

  /** `files` without the `skipped` paths. */
  function Without(files: map<Path, FileInfo>, skipped: set<Path>): (r: map<Path, FileInfo>)
    ensures forall p :: p in r <==> p in files && p !in skipped
    ensures forall p :: p in r ==> r[p] == files[p]
  {
    map p | p in files && p !in skipped :: files[p]
  }

  /** Saving a fresh scan of a listed local folder, without the skipped
      paths, stores exactly what SavedFreshScan describes. */
  lemma SavingFreshScan(w: World, localRoot: Path, entries: seq<Entry>, keys: seq<Path>,
                        digest: Bytes -> Hash, skipped: set<Path>)
    requires IsListing(localRoot, w.local, entries, keys)
    ensures SavedFreshScan(SaveSyncData(w, SyncData(Without(Collect(localRoot, entries, EmptySyncData, digest), skipped))),
                           localRoot, digest, skipped)
  {
    FreshScanRecords(localRoot, w.local, entries, keys, digest);
    FreshScanComplete(localRoot, w.local, entries, keys, digest);
  }

  /** The closing rescan: a fresh scan of the local folder that hashes
      every file again, one poll per file. A Stop among those polls leaves
      the baseline as it was; otherwise the scan is saved as the new
      baseline without the skipped paths. Only the inbox and the baseline
      change. */
  method SaveBaseline(localRoot: Path, w: World, skipped: set<Path>, digest: Bytes -> Hash)
    returns (w': World)
    ensures w' == w.(inbox := w'.inbox, meta := w'.meta)
    ensures w'.inbox == w.inbox[Min(|w.local|, |w.inbox|)..]
    ensures StopWithin(w.inbox, |w.local|) ==> w'.meta == w.meta
    ensures !StopWithin(w.inbox, |w.local|) ==> SavedFreshScan(w', localRoot, digest, skipped)
  {
    var entries, keys := ListFiles(localRoot, w.local);
    var scanned, rest := ScanDirectory(localRoot, entries, EmptySyncData, digest, w.inbox);
    w' := w.(inbox := rest);
    if scanned.Some? {
      SavingFreshScan(w', localRoot, entries, keys, digest, skipped);
      // Skipped conflicts are left out, to be looked at again next time.
      w' := SaveSyncData(w', SyncData(Without(scanned.value.files, skipped)));
    }
  }

  /** The number of files the two walks list: the local folder's files,
      then the mirror's files and the engine's own files beside them. */
  function WalkedFiles(mirrorRoot: Path, w: World): nat
  {
    |w.local| + |w.remote| + |ControlEntries(mirrorRoot, w)|
  }

  /** Walking and scanning one folder whose files are `tree`, beside
      which the walk also meets the control files `extra`: one poll per
      walked file; no snapshot iff a Stop arrives within them, and
      otherwise the tree's scan. */
  method ScanFolder(root: Path, tree: Tree, extra: seq<Entry>, last: SyncData, digest: Bytes -> Hash,
                    inbox: Inbox)
    returns (data: Option<SyncData>, rest: Inbox)
    requires forall i :: 0 <= i < |extra| ==> IsControlFile(extra[i].path)
    ensures data.None? <==> StopWithin(inbox, |tree| + |extra|)
    ensures data.Some? ==> rest == AfterPolls(inbox, |tree| + |extra|)
    ensures data.Some? ==> data.value == SyncData(ScanTree(root, tree, last, digest))
  {
    var listed, keys := ListFiles(root, tree);
    data, rest := ScanDirectory(root, listed + extra, last, digest, inbox);
    CollectDropped(root, listed, extra, last, digest);
    ScanOfListing(root, tree, listed, keys, last, digest);
  }

  /** Scanning the local folder, then the mirror's sync folder, against the
      baseline: one poll per walked file; no snapshots iff a Stop arrives
      within them, and otherwise the two trees' scans. */
  method ScanBoth(localRoot: Path, mirrorRoot: Path, last: SyncData, w: World, digest: Bytes -> Hash)
    returns (snapshots: Option<(SyncData, SyncData)>, rest: Inbox)
    ensures snapshots.None? <==> StopWithin(w.inbox, WalkedFiles(mirrorRoot, w))
    ensures snapshots.Some? ==>
      && rest == AfterPolls(w.inbox, WalkedFiles(mirrorRoot, w))
      && snapshots.value == (SyncData(ScanTree(localRoot, w.local, last, digest)),
                             SyncData(ScanTree(mirrorRoot, w.remote, last, digest)))
  {
    var n := |w.local|;
    var control := ControlEntries(mirrorRoot, w);
    ghost var m := |w.remote| + |control|;
    assert WalkedFiles(mirrorRoot, w) == n + m;
    var localData;
    localData, rest := ScanFolder(localRoot, w.local, [], last, digest, w.inbox);
    if localData.None? {
      StopWithinMonotone(w.inbox, n, n + m);
      return None, rest;
    }
    PollsCompose(w.inbox, n, m);
    var remoteData;
    remoteData, rest := ScanFolder(mirrorRoot, w.remote, control, last, digest, rest);
    if remoteData.None? {
      return None, rest;
    }
    snapshots := Some((localData.value, remoteData.value));
  }

  /** The local folder's scan against the baseline `last`. */
  function LocalScan(localRoot: Path, last: SyncData, w: World, digest: Bytes -> Hash): SyncData
  {
    SyncData(ScanTree(localRoot, w.local, last, digest))
  }

  /** The mirror's scan against the baseline `last`. */
  function MirrorScan(mirrorRoot: Path, last: SyncData, w: World, digest: Bytes -> Hash): SyncData
  {
    SyncData(ScanTree(mirrorRoot, w.remote, last, digest))
  }

  /** The polls taken by scanning both trees and planning: one per walked
      file, then one per change in each pass. */
  function ScanPolls(localRoot: Path, mirrorRoot: Path, last: SyncData, w: World,
                     compare: Compare, digest: Bytes -> Hash): nat
  {
    WalkedFiles(mirrorRoot, w)
      + PlanPolls(LocalScan(localRoot, last, w, digest), MirrorScan(mirrorRoot, last, w, digest), last, compare)
  }

  /** Scanning both trees against the baseline and planning. One poll per
      walked file and one per change: no plan iff a Stop arrives within
      them; otherwise the plan of the two trees' scans, with exactly those
      polls consumed. Only the inbox changes. */
  method ScanAndPlan(localRoot: Path, mirrorRoot: Path, last: SyncData, w: World,
                     compare: Compare, digest: Bytes -> Hash)
    returns (plan: Option<seq<SyncAction>>, w': World)
    ensures w' == w.(inbox := w'.inbox)
    ensures plan.None? <==> StopWithin(w.inbox, ScanPolls(localRoot, mirrorRoot, last, w, compare, digest))
    ensures plan.Some? ==> w'.inbox == AfterPolls(w.inbox, ScanPolls(localRoot, mirrorRoot, last, w, compare, digest))
    ensures plan.Some? ==>
      PlanOf(plan.value, LocalScan(localRoot, last, w, digest), MirrorScan(mirrorRoot, last, w, digest), last, compare)
    ensures NoStop(w.inbox) ==> plan.Some? && NoStop(w'.inbox)
  {
    ghost var local := LocalScan(localRoot, last, w, digest);
    ghost var remote := MirrorScan(mirrorRoot, last, w, digest);
    ghost var n := WalkedFiles(mirrorRoot, w);
    var snapshots, rest := ScanBoth(localRoot, mirrorRoot, last, w, digest);
    if snapshots.None? {
      StopWithinMonotone(w.inbox, n, n + PlanPolls(local, remote, last, compare));
      if NoStop(w.inbox) {
        NoStopNeverStops(w.inbox, n);
      }
      return None, w.(inbox := rest);
    }
    PollsCompose(w.inbox, n, PlanPolls(local, remote, last, compare));
    plan, rest := BuildPlan(snapshots.value.0, snapshots.value.1, last, compare, rest);
    w' := w.(inbox := rest);
    if NoStop(w.inbox) {
      NoStopAfterPolls(w.inbox, n + PlanPolls(local, remote, last, compare));
      NoStopNeverStops(w.inbox, n + PlanPolls(local, remote, last, compare));
    }
  }

  /** The paths of the skipped conflicts logged since `w0`. */
  function SkippedThisRun(w0: World, w: World): set<Path>
    requires |w0.logFile| <= |w.logFile|
  {
    SkippedIn(w.logFile[|w0.logFile|..])
  }

  /** The folders are given, the local one has a name and the baseline
      loads: the run gets as far as scanning. */
  predicate Ready(localFolder: Option<Path>, usbDrive: Option<Path>, w0: World)
  {
    localFolder.Some? && usbDrive.Some? && FileName(localFolder.value).Some? && LoadSyncData(w0.meta).Ok?
  }

  /** The mirror's sync folder: the drive joined with the local folder's name. */
  function MirrorRoot(localFolder: Path, usbDrive: Path): Path
    requires FileName(localFolder).Some?
  {
    usbDrive + [FileName(localFolder).value]
  }

  /** Announcing the plan: the number of actions, or that there is nothing to do. */
  function Announced(w: World, plan: seq<SyncAction>): World
  {
    w.Send(Log(if plan == [] then NoChanges else Planned(|plan|)))
  }

  /** How a halted walk ends the body. */
  function HaltEnd(h: Halt): BodyEnd
  {
    match h
    case StopRequested => Done(Ok(true))
    case Failed(e) => Done(Err(e))
    case Waiting => Blocked
  }

  /** The walk over the plan from a fresh executor state. */
  ghost function Walk(plan: seq<SyncAction>, localRoot: Path, mirrorRoot: Path, w: World): Run
  {
    ExecFrom(plan, 0, ExecState(w, 0, {}), Step, Roots(localRoot, mirrorRoot))
  }

  /** Executing `plan` from `w0` ends as the walk does: a halted walk
      ends the body with its halt and its world; a finished walk is
      followed by the closing rescan, which starts from the walk's inbox
      (`rescan`), keeps the baseline when a Stop arrives within its polls
      and otherwise saves a fresh scan without the skipped conflicts. */
  ghost predicate Executed(plan: seq<SyncAction>, localRoot: Path, mirrorRoot: Path, w0: World,
                           digest: Bytes -> Hash, end: BodyEnd, w: World, rescan: Inbox)
  {
    var run := Walk(plan, localRoot, mirrorRoot, w0);
    && (run.Interrupted? ==> end == HaltEnd(run.halt) && w == run.st.w)
    && (run.Finished? ==>
          && end == Done(Ok(false))
          && rescan == run.st.w.inbox
          && w == run.st.w.(inbox := w.inbox, meta := w.meta)
          && w.inbox == rescan[Min(|w.local|, |rescan|)..]
          && (StopWithin(rescan, |w.local|) ==> w.meta == run.st.w.meta)
          && (!StopWithin(rescan, |w.local|) ==> SavedFreshScan(w, localRoot, digest, run.st.skipped)))
  }

  /** What a ready body does, in terms of the scans, the plan and the walk:
      no plan iff a Stop arrives within the scans' and passes' polls, and
      then the body ends stopped; otherwise the plan of the two scans, a
      failed size fold ends the body with its error, and a measured plan
      is announced and executed. */
  ghost predicate BodyRuns(localRoot: Path, mirrorRoot: Path, last: SyncData, w0: World,
                           compare: Compare, digest: Bytes -> Hash,
                           plan: Option<seq<SyncAction>>, end: BodyEnd, w: World, rescan: Inbox)
  {
    var polls := ScanPolls(localRoot, mirrorRoot, last, w0, compare, digest);
    var scanned := w0.(inbox := AfterPolls(w0.inbox, polls));
    && (plan.None? <==> StopWithin(w0.inbox, polls))
    && (plan.None? ==> end == Done(Ok(true)) && w == w0.(inbox := w.inbox))
    && (plan.Some? ==>
          && PlanOf(plan.value, LocalScan(localRoot, last, w0, digest), MirrorScan(mirrorRoot, last, w0, digest),
                    last, compare)
          && (PlanSize(plan.value, w0.local, w0.remote).Err? ==>
                end == Done(Err(PlanSize(plan.value, w0.local, w0.remote).error)) && w == scanned)
          && (PlanSize(plan.value, w0.local, w0.remote).Ok? ==>
                Executed(plan.value, localRoot, mirrorRoot, Announced(scanned, plan.value), digest, end, w, rescan)))
  }

  /** The body of a run, up to the point where the outer handler takes
      over. The local root is `localFolder` and the mirror's sync folder is
      `usbDrive` joined with the local folder's name. */
  method SyncBody(localFolder: Option<Path>, usbDrive: Option<Path>, w0: World,
                  compare: Compare, digest: Bytes -> Hash)
    returns (end: BodyEnd, w: World, ghost planned: Option<seq<SyncAction>>, ghost rescan: Inbox)
    ensures localFolder.None? ==> end == Done(Err(NoLocalFolder)) && w == w0
    ensures localFolder.Some? && usbDrive.None? ==> end == Done(Err(NoUsbDrive)) && w == w0
    ensures localFolder.Some? && usbDrive.Some? && FileName(localFolder.value).None? ==>
      end == Done(Err(InvalidFolderName)) && w == w0
    ensures localFolder.Some? && usbDrive.Some? && FileName(localFolder.value).Some? && w0.meta.Unparsable? ==>
      end == Done(Err(CorruptMetadata)) && w == w0
    ensures Ready(localFolder, usbDrive, w0) ==>
      BodyRuns(localFolder.value, MirrorRoot(localFolder.value, usbDrive.value), LoadSyncData(w0.meta).value,
               w0, compare, digest, planned, end, w, rescan)
    ensures |w0.logFile| <= |w.logFile| && w.logFile[..|w0.logFile|] == w0.logFile
    ensures end != Done(Ok(false)) ==> w.meta == w0.meta
    ensures NoStop(w0.inbox) ==> end != Done(Ok(true))
    ensures end == Done(Ok(false)) ==>
      && Ready(localFolder, usbDrive, w0)
      && (NoStop(w0.inbox) ==> NoStop(rescan))
      && w.inbox == rescan[Min(|w.local|, |rescan|)..]
      && (StopWithin(rescan, |w.local|) ==> w.meta == w0.meta)
      && (!StopWithin(rescan, |w.local|) ==> SavedFreshScan(w, localFolder.value, digest, SkippedThisRun(w0, w)))
  {
    rescan, planned := [], None;
    if localFolder.None? {
      return Done(Err(NoLocalFolder)), w0, planned, rescan;
    }
    if usbDrive.None? {
      return Done(Err(NoUsbDrive)), w0, planned, rescan;
    }
    var localRoot := localFolder.value;
    var name := FileName(localRoot);
    if name.None? {
      return Done(Err(InvalidFolderName)), w0, planned, rescan;
    }
    var mirrorRoot := usbDrive.value + [name.value];
    var loaded := LoadSyncData(w0.meta);
    if loaded.Err? {
      return Done(Err(loaded.error)), w0, planned, rescan;
    }
    var plan;
    plan, w := ScanAndPlan(localRoot, mirrorRoot, loaded.value, w0, compare, digest);
    planned := plan;
    if plan.None? {
      // ScanAndPlan finds no Stop in a Stop-free inbox.
      return Done(Ok(true)), w, planned, rescan;
    }
    // The total size only feeds progress reports, but a missing file aborts the run.
    var total := PlanSize(plan.value, w.local, w.remote);
    if total.Err? {
      return Done(Err(total.error)), w, planned, rescan;
    }
    w := Announced(w, plan.value);
    assert w.logFile == w0.logFile;
    end, w, rescan := ExecuteAndSave(plan.value, localRoot, mirrorRoot, w, digest);
  }

  /** Executing the plan and, when the walk completes, saving the closing
      rescan as the new baseline. A walk that halts leaves the baseline as
      it was and can end with a stop only when the inbox holds one. */
  method ExecuteAndSave(plan: seq<SyncAction>, localRoot: Path, mirrorRoot: Path, w0: World,
                        digest: Bytes -> Hash)
    returns (end: BodyEnd, w: World, ghost rescan: Inbox)
    ensures Executed(plan, localRoot, mirrorRoot, w0, digest, end, w, rescan)
    ensures |w0.logFile| <= |w.logFile| && w.logFile[..|w0.logFile|] == w0.logFile
    ensures end != Done(Ok(false)) ==> w.meta == w0.meta
    ensures NoStop(w0.inbox) ==> end != Done(Ok(true))
    ensures end == Done(Ok(false)) ==>
      && (NoStop(w0.inbox) ==> NoStop(rescan))
      && w.inbox == rescan[Min(|w.local|, |rescan|)..]
      && (StopWithin(rescan, |w.local|) ==> w.meta == w0.meta)
      && (!StopWithin(rescan, |w.local|) ==> SavedFreshScan(w, localRoot, digest, SkippedThisRun(w0, w)))
  {
    rescan := [];
    var roots := Roots(localRoot, mirrorRoot);
    var st0 := ExecState(w0, 0, {});
    var run := ExecutePlan(plan, st0, roots);
    assert run == Walk(plan, localRoot, mirrorRoot, w0);
    StepLogsAlways(roots);
    ExecFrame(plan, 0, st0, Step, roots);
    ExecSkipped(plan, 0, st0, Step, roots);
    StepStopsOnlyOnStop(roots);
    if NoStop(w0.inbox) {
      WalkStopsOnlyOnStop(plan, 0, st0, Step, roots);
    }
    if run.Interrupted? {
      return HaltEnd(run.halt), run.st.w, rescan;
    }
    rescan := run.st.w.inbox;
    w := SaveBaseline(localRoot, run.st.w, run.st.skipped, digest);
    end := Done(Ok(false));
  }

  // ----- How the run ends -----

  /** Tell the caller how the run ended: a stopped run logs that the user
      stopped it and sends Stopped; every other run sends Complete. */
  function Signal(stopped: bool, w: World): World
  {
    if stopped then w.Send(Log(StoppedByUser)).Send(Stopped) else w.Send(Complete)
  }

  /** The outer handler as the source writes it; None when it panics. On an
      error it sends the error as a log message and, when both folders were
      given, also writes it to the mirror's log, re-deriving the mirror
      path from the local folder's name with an unchecked unwrap. */
  function EpilogueAsWritten(r: Result<bool>, localFolder: Option<Path>, usbDrive: Option<Path>, w: World)
    : (o: Option<World>)
    ensures r.Ok? ==> o == Some(Signal(r.value, w))
  {
    match r
    case Ok(stopped) => Some(Signal(stopped, w))
    case Err(e) =>
      var w1 := w.Send(Log(Failure(e)));
      if localFolder.Some? && usbDrive.Some? then
        if FileName(localFolder.value).None? then None
        else Some(Signal(false, WriteLogEntry(w1, Failure(e))))
      else Some(Signal(false, w1))
  }

  /** The outer handler with the log write skipped when the local folder
      has no name, as it is when the body itself reports that. */
  function Epilogue(r: Result<bool>, localFolder: Option<Path>, usbDrive: Option<Path>, w: World): (w': World)
    ensures |w'.outbox| > |w.outbox| && w'.outbox[..|w.outbox|] == w.outbox
    ensures w'.outbox[|w'.outbox| - 1] == (if r == Ok(true) then Stopped else Complete)
    ensures r == Ok(true) ==> w'.outbox == w.outbox + [Log(StoppedByUser), Stopped]
    ensures r.Err? ==> w'.outbox == w.outbox + [Log(Failure(r.error)), Complete]
    ensures r == Ok(false) ==> w'.outbox == w.outbox + [Complete]
    ensures r.Err? && localFolder.Some? && usbDrive.Some? && FileName(localFolder.value).Some? ==>
      w'.logFile == w.logFile + [Failure(r.error)]
    ensures !(r.Err? && localFolder.Some? && usbDrive.Some? && FileName(localFolder.value).Some?) ==>
      w'.logFile == w.logFile
    ensures w'.meta == w.meta && w'.local == w.local && w'.remote == w.remote
  {
    match r
    case Ok(stopped) => Signal(stopped, w)
    case Err(e) =>
      var w1 := w.Send(Log(Failure(e)));
      if localFolder.Some? && usbDrive.Some? && FileName(localFolder.value).Some? then
        Signal(false, WriteLogEntry(w1, Failure(e)))
      else Signal(false, w1)
  }

  /** Where the handler as written does not panic, it agrees with the
      corrected one. */
  lemma EpilogueAgrees(r: Result<bool>, localFolder: Option<Path>, usbDrive: Option<Path>, w: World)
    ensures EpilogueAsWritten(r, localFolder, usbDrive, w).Some? ==>
      EpilogueAsWritten(r, localFolder, usbDrive, w).value == Epilogue(r, localFolder, usbDrive, w)
    ensures EpilogueAsWritten(r, localFolder, usbDrive, w).None? <==>
      r.Err? && localFolder.Some? && usbDrive.Some? && FileName(localFolder.value).None?
  {
  }

  /** A run on the file-system root (or on a folder given as a path ending
      in "..") fails because the folder has no name, and the handler as
      written then panics on the same missing name: the caller is sent the
      error but neither Complete nor Stopped. */
  lemma RootFolderPanics(usbRoot: Path, w: World)
    ensures FileName([]) == None
    ensures EpilogueAsWritten(Err(InvalidFolderName), Some([]), Some(usbRoot), w) == None
    ensures Epilogue(Err(InvalidFolderName), Some([]), Some(usbRoot), w).outbox ==
      w.outbox + [Log(Failure(InvalidFolderName)), Complete]
  {
  }

  /** A whole run: the body, then the outer handler. The result says how
      the body ended; a blocked run has sent no final message yet. */
  method RunSync(localFolder: Option<Path>, usbDrive: Option<Path>, w0: World,
                 compare: Compare, digest: Bytes -> Hash)
    returns (end: BodyEnd, w: World, ghost body: World, ghost planned: Option<seq<SyncAction>>,
             ghost rescan: Inbox)
    ensures end.Done? ==> w == Epilogue(end.result, localFolder, usbDrive, body)
    ensures end.Blocked? ==> w == body
    ensures Ready(localFolder, usbDrive, w0) ==>
      BodyRuns(localFolder.value, MirrorRoot(localFolder.value, usbDrive.value), LoadSyncData(w0.meta).value,
               w0, compare, digest, planned, end, body, rescan)
    ensures Ready(localFolder, usbDrive, w0) ==>
      var mirrorRoot := MirrorRoot(localFolder.value, usbDrive.value);
      var last := LoadSyncData(w0.meta).value;
      var polls := ScanPolls(localFolder.value, mirrorRoot, last, w0, compare, digest);
      && (StopWithin(w0.inbox, polls) ==> end == Done(Ok(true)))
      && (planned.Some? && PlanSize(planned.value, w0.local, w0.remote).Ok? ==>
            var walk := Walk(planned.value, localFolder.value, mirrorRoot,
                             Announced(w0.(inbox := AfterPolls(w0.inbox, polls)), planned.value));
            walk.Interrupted? && walk.halt == StopRequested ==> end == Done(Ok(true)))
    ensures end == Done(Ok(true)) ==>
      && w.meta == w0.meta
      && |w.outbox| >= 2 && w.outbox[|w.outbox| - 2..] == [Log(StoppedByUser), Stopped]
    ensures end.Done? && end.result.Err? ==>
      && w.meta == w0.meta
      && |w.outbox| >= 2 && w.outbox[|w.outbox| - 2..] == [Log(Failure(end.result.error)), Complete]
    ensures end == Done(Ok(true)) ==> Some(Stop) in w0.inbox
    ensures end == Done(Ok(false)) ==>
      && |w.outbox| >= 1 && w.outbox[|w.outbox| - 1] == Complete
      && Ready(localFolder, usbDrive, w0) && |w0.logFile| <= |w.logFile|
      && (NoStop(w0.inbox) ==> NoStop(rescan))
      && (StopWithin(rescan, |w.local|) ==> w.meta == w0.meta)
      && (!StopWithin(rescan, |w.local|) ==> SavedFreshScan(w, localFolder.value, digest, SkippedThisRun(w0, w)))
    ensures end.Blocked? ==> w.meta == w0.meta
    ensures localFolder.None? ==> end == Done(Err(NoLocalFolder))
    ensures localFolder.Some? && usbDrive.None? ==> end == Done(Err(NoUsbDrive))
    ensures localFolder.Some? && usbDrive.Some? && FileName(localFolder.value).None? ==>
      end == Done(Err(InvalidFolderName)) && w.logFile == w0.logFile
  {
    var bw;
    end, bw, planned, rescan := SyncBody(localFolder, usbDrive, w0, compare, digest);
    body := bw;
    if end.Blocked? {
      return end, bw, body, planned, rescan;
    }
    w := Epilogue(end.result, localFolder, usbDrive, bw);
    if end == Done(Ok(false)) {
      assert w.logFile == bw.logFile && w.local == bw.local && w.meta == bw.meta;
    }
  }
}
