/** The plan executor: runs the planned actions in batches of five, asking
    the caller to confirm each delete and to resolve each conflict, and
    records one log line per completed action. */
module Executor {
  import opened Models
  import opened Env
  import opened Copier
  import opened Store
  import opened Planner
  import opened Reads

  /** Files larger than this are copied in chunks, with stop checks. */
  const LARGE_FILE_THRESHOLD: nat := 10 * 1024 * 1024
  const BATCH_SIZE: nat := 5

  /** Why execution ended before the end of the plan: a Stop was received,
      an I/O step failed, or the engine is still blocked waiting for a reply
      that never arrived. */
  datatype Halt = StopRequested | Failed(error: Error) | Waiting

  /** The result of one action: the note to log, or why it halted. */
  datatype Outcome =
    | Next(note: Note, w: World, skipped: set<Path>)
    | Halted(halt: Halt, w: World)

  /** The absolute roots of the two trees, used in deletion requests. */
  datatype Roots = Roots(local: Path, mirror: Path)

  function RootOf(roots: Roots, s: Side): Path
  {
    if s == LocalSide then roots.local else roots.mirror
  }

  // ----- Copying one file -----

  /** Copies `p` into the tree at `to` from the other tree: a missing
      source is an error, a file over the threshold goes through the
      chunked copy, and a smaller one is copied whole. */
  function CopyFile(w: World, to: Side, p: Path): (Result<bool>, World)
  {
    var src := w.TreeAt(Other(to));
    if p !in src then (Err(MissingFile(p)), w)
    else if |src[p].data| > LARGE_FILE_THRESHOLD then LargeCopy(w, to, p)
    else (Ok(false), w.WithTree(to, w.TreeAt(to)[p := File(src[p].data, w.now)]))
  }

  /** A completed copy makes the destination's `p` hold the source's bytes;
      a stopped one (only a large file can be stopped) leaves no `p` at the
      destination. The source tree, the other destination entries and
      everything but the inbox are untouched. */
  lemma CopyFileMeaning(w: World, to: Side, p: Path)
    ensures var (res, w') := CopyFile(w, to, p);
      && (res.Err? <==> p !in w.TreeAt(Other(to)))
      && (res.Err? ==> res.error == MissingFile(p) && w' == w)
      && (res == Ok(false) ==> p in w'.TreeAt(to) && w'.TreeAt(to)[p].data == w.TreeAt(Other(to))[p].data)
      && (res == Ok(true) ==> p !in w'.TreeAt(to) && |w.TreeAt(Other(to))[p].data| > LARGE_FILE_THRESHOLD)
      && (forall q :: q != p ==> (q in w'.TreeAt(to) <==> q in w.TreeAt(to)))
      && (forall q :: q != p && q in w.TreeAt(to) ==> w'.TreeAt(to)[q] == w.TreeAt(to)[q])
      && w'.TreeAt(Other(to)) == w.TreeAt(Other(to))
      && w'.outbox == w.outbox && w'.logFile == w.logFile && w'.meta == w.meta && w'.now == w.now
  {
  }

  method Transfer(w: World, to: Side, p: Path) returns (res: Result<bool>, w': World)
    ensures (res, w') == CopyFile(w, to, p)
  {
    var src := w.TreeAt(Other(to));
    if p !in src {
      return Err(MissingFile(p)), w;
    }
    if |src[p].data| > LARGE_FILE_THRESHOLD {
      res, w' := CopyLargeFile(w, to, p);
    } else {
      res, w' := Ok(false), w.WithTree(to, w.TreeAt(to)[p := File(src[p].data, w.now)]);
    }
  }

  // ----- Waiting for a reply -----

  datatype Awaited = DeletionReply | ResolutionReply

  /** The messages a blocking wait accepts: the reply it waits for, or Stop. */
  predicate Accepts(kind: Awaited, m: SyncMessage)
  {
    || m == Stop
    || (kind == DeletionReply && m.DeletionConfirmed?)
    || (kind == ResolutionReply && m.ConflictResolved?)
  }

  predicate AcceptedAt(s: Inbox, i: nat, kind: Awaited)
    requires i < |s|
  {
    s[i].Some? && Accepts(kind, s[i].value)
  }

  /** Index of the first accepted message, or |s| when none arrives. */
  function FirstAccepted(s: Inbox, kind: Awaited): (r: nat)
    ensures r <= |s|
    ensures r < |s| ==> AcceptedAt(s, r, kind)
  {
    if s == [] then 0
    else if AcceptedAt(s, 0, kind) then 0
    else 1 + FirstAccepted(s[1..], kind)
  }

  /** A wait discards every message before the first accepted one. */
  lemma {:induction false} FirstAcceptedIsFirst(s: Inbox, kind: Awaited)
    ensures forall j :: 0 <= j < FirstAccepted(s, kind) ==> !AcceptedAt(s, j, kind)
  {
    if s != [] && !AcceptedAt(s, 0, kind) {
      FirstAcceptedIsFirst(s[1..], kind);
      forall j | 0 <= j < FirstAccepted(s, kind)
        ensures !AcceptedAt(s, j, kind)
      {
        if j > 0 {
          assert s[j] == s[1..][j - 1];
          assert !AcceptedAt(s[1..], j - 1, kind);
        }
      }
    }
  }

  /** The accepted message and what is left after it, or None when the
      engine is still waiting. */
  function Await(s: Inbox, kind: Awaited): (r: Option<(SyncMessage, Inbox)>)
    ensures r.Some? ==> Accepts(kind, r.value.0)
  {
    var k := FirstAccepted(s, kind);
    if k < |s| then Some((s[k].value, s[k + 1..])) else None
  }

  /** The blocking receive loop: other messages are received and dropped. */
  method Receive(inbox: Inbox, kind: Awaited) returns (m: Option<SyncMessage>, rest: Inbox)
    ensures Await(inbox, kind).None? ==> m.None? && rest == []
    ensures Await(inbox, kind).Some? ==> m == Some(Await(inbox, kind).value.0) && rest == Await(inbox, kind).value.1
  {
    rest := inbox;
    while rest != []
      invariant |rest| <= |inbox| && rest == inbox[|inbox| - |rest|..]
      invariant FirstAccepted(inbox, kind) == (|inbox| - |rest|) + FirstAccepted(rest, kind)
      decreases |rest|
    {
      if rest[0].Some? && Accepts(kind, rest[0].value) {
        assert AcceptedAt(rest, 0, kind);
        return rest[0], rest[1..];
      }
      rest := rest[1..];
    }
    m := None;
  }

  // ----- One action -----

  function AfterCopy(r: (Result<bool>, World), note: Note, skipped: set<Path>): Outcome
  {
    match r.0
    case Err(e) => Halted(Failed(e), r.1)
    case Ok(stopped) => if stopped then Halted(StopRequested, r.1) else Next(note, r.1, skipped)
  }

  function DeletedNote(s: Side, p: Path): Note
  {
    if s == LocalSide then DeletedLocal(p) else DeletedRemote(p)
  }

  /** After the confirmation request was sent: a yes removes `p` from the
      tree at `s` if it is there, a no keeps it. */
  function AwaitDeletion(w: World, s: Side, p: Path, skipped: set<Path>): Outcome
  {
    match Await(w.inbox, DeletionReply)
    case None => Halted(Waiting, w.(inbox := []))
    case Some((m, rest)) =>
      var w1 := w.(inbox := rest);
      if m == Stop then Halted(StopRequested, w1)
      else if m.confirmed then Next(DeletedNote(s, p), w1.WithTree(s, w1.TreeAt(s) - {p}), skipped)
      else Next(DeletionCancelled(p), w1, skipped)
  }

  /** After the resolution request was sent: keep one side's version by
      copying it over the other, or skip the path. */
  function AwaitResolution(w: World, p: Path, skipped: set<Path>): Outcome
  {
    match Await(w.inbox, ResolutionReply)
    case None => Halted(Waiting, w.(inbox := []))
    case Some((m, rest)) =>
      var w1 := w.(inbox := rest);
      if m == Stop then Halted(StopRequested, w1)
      else match m.resolution
        case KeepLocal => AfterCopy(CopyFile(w1, RemoteSide, p), ResolvedKeepLocal(p), skipped)
        case KeepRemote => AfterCopy(CopyFile(w1, LocalSide, p), ResolvedKeepRemote(p), skipped)
        case Skip => Next(SkippedConflict(p), w1, skipped + {p})
  }

  /** What one planned action does. */
  function Apply(a: SyncAction, w: World, skipped: set<Path>, roots: Roots): Outcome
  {
    match a
    case LocalToRemote(p) => AfterCopy(CopyFile(w, RemoteSide, p), CopiedToRemote(p), skipped)
    case RemoteToLocal(p) => AfterCopy(CopyFile(w, LocalSide, p), CopiedToLocal(p), skipped)
    case DeleteRemote(p) => AwaitDeletion(w.Send(ConfirmDeletion(roots.mirror + p)), RemoteSide, p, skipped)
    case DeleteLocal(p) => AwaitDeletion(w.Send(ConfirmDeletion(roots.local + p)), LocalSide, p, skipped)
    case Conflict(p) => AwaitResolution(w.Send(AskForConflictResolution(p)), p, skipped)
  }

  method ApplyAction(a: SyncAction, w: World, skipped: set<Path>, roots: Roots) returns (o: Outcome)
    ensures o == Apply(a, w, skipped, roots)
  {
    match a
    case LocalToRemote(p) =>
      var res, w1 := Transfer(w, RemoteSide, p);
      o := AfterCopy((res, w1), CopiedToRemote(p), skipped);
    case RemoteToLocal(p) =>
      var res, w1 := Transfer(w, LocalSide, p);
      o := AfterCopy((res, w1), CopiedToLocal(p), skipped);
    case DeleteRemote(p) =>
      o := ConfirmAndDelete(w, RemoteSide, p, skipped, roots);
    case DeleteLocal(p) =>
      o := ConfirmAndDelete(w, LocalSide, p, skipped, roots);
    case Conflict(p) =>
      var w1 := w.Send(AskForConflictResolution(p));
      var m, rest := Receive(w1.inbox, ResolutionReply);
      if m.None? {
        return Halted(Waiting, w1.(inbox := []));
      }
      w1 := w1.(inbox := rest);
      if m.value == Stop {
        return Halted(StopRequested, w1);
      }
      match m.value.resolution {
        case KeepLocal =>
          var res, w2 := Transfer(w1, RemoteSide, p);
          o := AfterCopy((res, w2), ResolvedKeepLocal(p), skipped);
        case KeepRemote =>
          var res, w2 := Transfer(w1, LocalSide, p);
          o := AfterCopy((res, w2), ResolvedKeepRemote(p), skipped);
        case Skip =>
          o := Next(SkippedConflict(p), w1, skipped + {p});
      }
  }

  method ConfirmAndDelete(w: World, s: Side, p: Path, skipped: set<Path>, roots: Roots) returns (o: Outcome)
    ensures o == AwaitDeletion(w.Send(ConfirmDeletion(RootOf(roots, s) + p)), s, p, skipped)
  {
    var w1 := w.Send(ConfirmDeletion(RootOf(roots, s) + p));
    var m, rest := Receive(w1.inbox, DeletionReply);
    if m.None? {
      return Halted(Waiting, w1.(inbox := []));
    }
    w1 := w1.(inbox := rest);
    if m.value == Stop {
      return Halted(StopRequested, w1);
    }
    if m.value.confirmed {
      // Removing is skipped when the file is already gone.
      var tree := w1.TreeAt(s);
      if p in tree {
        tree := tree - {p};
      }
      o := Next(DeletedNote(s, p), w1.WithTree(s, tree), skipped);
    } else {
      o := Next(DeletionCancelled(p), w1, skipped);
    }
  }

  /** The note an action may log: its own path, and the kind of outcome
      that action has. */
  predicate Reports(a: SyncAction, n: Note)
  {
    match a
    case LocalToRemote(p) => n == CopiedToRemote(p)
    case RemoteToLocal(p) => n == CopiedToLocal(p)
    case DeleteRemote(p) => n == DeletedRemote(p) || n == DeletionCancelled(p)
    case DeleteLocal(p) => n == DeletedLocal(p) || n == DeletionCancelled(p)
    case Conflict(p) => n == ResolvedKeepLocal(p) || n == ResolvedKeepRemote(p) || n == SkippedConflict(p)
  }

  /** The notes carried by the Log messages among `ms`, in order. */
  function LogNotes(ms: seq<SyncMessage>): seq<Note>
  {
    if ms == [] then []
    else LogNotes(ms[..|ms| - 1]) + (if ms[|ms| - 1].Log? then [ms[|ms| - 1].note] else [])
  }

  lemma {:induction false} LogNotesAppend(a: seq<SyncMessage>, b: seq<SyncMessage>)
    ensures LogNotes(a + b) == LogNotes(a) + LogNotes(b)
    decreases |b|
  {
    if b == [] {
      assert a + b == a;
    } else {
      assert (a + b)[..|a + b| - 1] == a + b[..|b| - 1];
      LogNotesAppend(a, b[..|b| - 1]);
    }
  }

  /** The request an action sends to the caller before it acts: none for
      a copy, the absolute path for a delete, the relative path for a
      conflict. */
  function Request(a: SyncAction, roots: Roots): seq<SyncMessage>
  {
    match a
    case LocalToRemote(_) => []
    case RemoteToLocal(_) => []
    case DeleteRemote(p) => [ConfirmDeletion(roots.mirror + p)]
    case DeleteLocal(p) => [ConfirmDeletion(roots.local + p)]
    case Conflict(p) => [AskForConflictResolution(p)]
  }

  lemma CopyFrame(w: World, to: Side, p: Path, note: Note, skipped: set<Path>)
    ensures var o := AfterCopy(CopyFile(w, to, p), note, skipped);
      && o.w.logFile == w.logFile && o.w.meta == w.meta && o.w.now == w.now && o.w.outbox == w.outbox
      && (o.Next? ==> o.note == note && o.skipped == skipped)
  {
    CopyFileMeaning(w, to, p);
  }

  /** Waiting for a confirmation and acting on it sends, logs and saves
      nothing. */
  lemma DeletionFrame(w: World, s: Side, p: Path, skipped: set<Path>)
    ensures var o := AwaitDeletion(w, s, p, skipped);
      && o.w.logFile == w.logFile && o.w.meta == w.meta && o.w.now == w.now && o.w.outbox == w.outbox
      && (o.Next? ==> (o.note == DeletedNote(s, p) || o.note == DeletionCancelled(p)) && o.skipped == skipped)
  {
  }

  /** Waiting for a resolution and acting on it sends, logs and saves
      nothing; only a skip adds to the skipped paths. */
  lemma ResolutionFrame(w: World, p: Path, skipped: set<Path>)
    ensures var o := AwaitResolution(w, p, skipped);
      && o.w.logFile == w.logFile && o.w.meta == w.meta && o.w.now == w.now && o.w.outbox == w.outbox
      && (o.Next? ==>
            || ((o.note == ResolvedKeepLocal(p) || o.note == ResolvedKeepRemote(p)) && o.skipped == skipped)
            || (o.note == SkippedConflict(p) && o.skipped == skipped + {p}))
  {
    match Await(w.inbox, ResolutionReply)
    case None =>
    case Some((m, rest)) =>
      if m != Stop {
        match m.resolution
        case KeepLocal => CopyFrame(w.(inbox := rest), RemoteSide, p, ResolvedKeepLocal(p), skipped);
        case KeepRemote => CopyFrame(w.(inbox := rest), LocalSide, p, ResolvedKeepRemote(p), skipped);
        case Skip =>
      }
  }

  /** One action sends only its request to the caller, never a log
      message, writes no log line and never touches the baseline; a
      completed action's note reports that action, and only a skipped
      conflict adds (its own path) to the skipped paths. */
  lemma ApplyFrame(a: SyncAction, w: World, skipped: set<Path>, roots: Roots)
    ensures var o := Apply(a, w, skipped, roots);
      && o.w.logFile == w.logFile && o.w.meta == w.meta && o.w.now == w.now
      && o.w.outbox == w.outbox + Request(a, roots)
      && LogNotes(Request(a, roots)) == []
      && (o.Next? ==> Reports(a, o.note))
      && (o.Next? ==> o.skipped == (if o.note.SkippedConflict? then skipped + {a.path} else skipped))
  {
    RequestIsNotLog(a, roots);
    match a
    case LocalToRemote(p) => CopyFrame(w, RemoteSide, p, CopiedToRemote(p), skipped);
    case RemoteToLocal(p) => CopyFrame(w, LocalSide, p, CopiedToLocal(p), skipped);
    case DeleteRemote(p) => DeletionFrame(w.Send(ConfirmDeletion(roots.mirror + p)), RemoteSide, p, skipped);
    case DeleteLocal(p) => DeletionFrame(w.Send(ConfirmDeletion(roots.local + p)), LocalSide, p, skipped);
    case Conflict(p) => ResolutionFrame(w.Send(AskForConflictResolution(p)), p, skipped);
  }

  /** A delete sends exactly one confirmation request, for the file's
      absolute path, and takes the first confirmation or Stop after it,
      dropping any other message. A refusal changes neither tree; a
      confirmation removes the file from its own tree only, and removing
      it again would change nothing. */
  lemma DeleteProtocol(w: World, s: Side, p: Path, skipped: set<Path>, roots: Roots)
    ensures var a := if s == LocalSide then DeleteLocal(p) else DeleteRemote(p);
      var o := Apply(a, w, skipped, roots);
      var sentW := w.Send(ConfirmDeletion(RootOf(roots, s) + p));
      && o.w.outbox == w.outbox + [ConfirmDeletion(RootOf(roots, s) + p)]
      && (forall j :: 0 <= j < FirstAccepted(sentW.inbox, DeletionReply) ==>
            !AcceptedAt(sentW.inbox, j, DeletionReply))
      && (o.Halted? ==> o.w.local == w.local && o.w.remote == w.remote)
      && (o.Halted? ==> o.halt == StopRequested || o.halt == Waiting)
      && (o.Next? && o.note == DeletionCancelled(p) ==> o.w.local == w.local && o.w.remote == w.remote)
      && (o.Next? && o.note != DeletionCancelled(p) ==>
            && o.note == DeletedNote(s, p)
            && p !in o.w.TreeAt(s)
            && o.w.TreeAt(s) == w.TreeAt(s) - {p}
            && o.w.TreeAt(s) - {p} == o.w.TreeAt(s)
            && o.w.TreeAt(Other(s)) == w.TreeAt(Other(s)))
      && (o.Next? ==> o.skipped == skipped)
  {
    FirstAcceptedIsFirst(w.Send(ConfirmDeletion(RootOf(roots, s) + p)).inbox, DeletionReply);
  }

  /** A conflict sends exactly one resolution request for its path.
      KeepLocal makes the mirror's copy hold the local bytes, KeepRemote
      the reverse, each leaving the kept side untouched; Skip changes
      neither tree and records the path as skipped. */
  lemma ConflictProtocol(w: World, p: Path, skipped: set<Path>, roots: Roots)
    ensures var o := Apply(Conflict(p), w, skipped, roots);
      && o.w.outbox == w.outbox + [AskForConflictResolution(p)]
      && (o.Next? && o.note == ResolvedKeepLocal(p) ==>
            p in w.local && p in o.w.remote && o.w.remote[p].data == w.local[p].data && o.w.local == w.local)
      && (o.Next? && o.note == ResolvedKeepRemote(p) ==>
            p in w.remote && p in o.w.local && o.w.local[p].data == w.remote[p].data && o.w.remote == w.remote)
      && (o.Next? && o.note == SkippedConflict(p) ==>
            o.w.local == w.local && o.w.remote == w.remote && o.skipped == skipped + {p})
  {
    var w1 := w.Send(AskForConflictResolution(p));
    match Await(w1.inbox, ResolutionReply)
    case None =>
    case Some((m, rest)) =>
      CopyFileMeaning(w1.(inbox := rest), RemoteSide, p);
      CopyFileMeaning(w1.(inbox := rest), LocalSide, p);
  }

  /** The reply decides a delete: no reply leaves the engine waiting, Stop
      halts, a confirmation removes the file from its own tree only and a
      refusal changes nothing but the messages. */
  lemma DeletionByReply(w: World, s: Side, p: Path, skipped: set<Path>, roots: Roots)
    ensures var a := if s == LocalSide then DeleteLocal(p) else DeleteRemote(p);
      var o := Apply(a, w, skipped, roots);
      var sent := w.Send(ConfirmDeletion(RootOf(roots, s) + p));
      match Await(w.inbox, DeletionReply)
      case None => o == Halted(Waiting, sent.(inbox := []))
      case Some((m, rest)) =>
        && (m == Stop ==> o == Halted(StopRequested, sent.(inbox := rest)))
        && (m == DeletionConfirmed(true) ==>
              && o.Next? && o.note == DeletedNote(s, p) && o.skipped == skipped
              && o.w.inbox == rest && o.w.outbox == sent.outbox
              && o.w.TreeAt(s) == w.TreeAt(s) - {p} && o.w.TreeAt(Other(s)) == w.TreeAt(Other(s)))
        && (m == DeletionConfirmed(false) ==> o == Next(DeletionCancelled(p), sent.(inbox := rest), skipped))
  {
  }

  /** What a kept side's resolution does: `p` is copied from the `kept`
      tree over the other one. A missing source is an error; a small file
      is always copied; a large one is stopped exactly when a Stop arrives
      within its copy's polls, leaving no file on the other side. */
  ghost predicate Kept(o: Outcome, w: World, rest: Inbox, kept: Side, p: Path, note: Note, skipped: set<Path>)
  {
    && (p !in w.TreeAt(kept) ==> o.Halted? && o.halt == Failed(MissingFile(p)))
    && (p in w.TreeAt(kept) && |w.TreeAt(kept)[p].data| <= LARGE_FILE_THRESHOLD ==> o.Next?)
    && (p in w.TreeAt(kept) && |w.TreeAt(kept)[p].data| > LARGE_FILE_THRESHOLD ==>
          (o.Halted? <==> StopWithin(rest, ReadChecks(|w.TreeAt(kept)[p].data|, COPY_CHUNK))))
    && (o.Next? ==>
          && o.note == note && o.skipped == skipped && p in w.TreeAt(kept)
          && p in o.w.TreeAt(Other(kept)) && o.w.TreeAt(Other(kept))[p].data == w.TreeAt(kept)[p].data
          && o.w.TreeAt(kept) == w.TreeAt(kept))
    && (o.Halted? && p in w.TreeAt(kept) ==>
          o.halt == StopRequested && p !in o.w.TreeAt(Other(kept)) && o.w.TreeAt(kept) == w.TreeAt(kept))
  }

  /** The reply decides a conflict: no reply leaves the engine waiting,
      Stop halts, KeepLocal copies the local file over the mirror's,
      KeepRemote the mirror's over the local one, and Skip changes no tree
      and adds exactly the conflict's path to the skipped paths. */
  lemma ResolutionByReply(w: World, p: Path, skipped: set<Path>, roots: Roots)
    ensures var o := Apply(Conflict(p), w, skipped, roots);
      var sent := w.Send(AskForConflictResolution(p));
      match Await(w.inbox, ResolutionReply)
      case None => o == Halted(Waiting, sent.(inbox := []))
      case Some((m, rest)) =>
        && (m == Stop ==> o == Halted(StopRequested, sent.(inbox := rest)))
        && (m == ConflictResolved(KeepLocal) ==> Kept(o, w, rest, LocalSide, p, ResolvedKeepLocal(p), skipped))
        && (m == ConflictResolved(KeepRemote) ==> Kept(o, w, rest, RemoteSide, p, ResolvedKeepRemote(p), skipped))
        && (m == ConflictResolved(Skip) ==> o == Next(SkippedConflict(p), sent.(inbox := rest), skipped + {p}))
  {
    var sent := w.Send(AskForConflictResolution(p));
    match Await(w.inbox, ResolutionReply)
    case None =>
    case Some((m, rest)) =>
      var w1 := sent.(inbox := rest);
      if m == ConflictResolved(KeepLocal) {
        CopyFileMeaning(w1, RemoteSide, p);
        KeptCopy(w1, rest, LocalSide, p, ResolvedKeepLocal(p), skipped);
      } else if m == ConflictResolved(KeepRemote) {
        CopyFileMeaning(w1, LocalSide, p);
        KeptCopy(w1, rest, RemoteSide, p, ResolvedKeepRemote(p), skipped);
      }
  }

  /** Copying from the kept side, as the resolution does it. */
  lemma KeptCopy(w: World, rest: Inbox, kept: Side, p: Path, note: Note, skipped: set<Path>)
    requires w.inbox == rest
    ensures Kept(AfterCopy(CopyFile(w, Other(kept), p), note, skipped), w, rest, kept, p, note, skipped)
  {
    CopyFileMeaning(w, Other(kept), p);
    assert Other(Other(kept)) == kept;
  }

  /** A file deleted locally since the last sync is planned as a delete on
      the mirror followed by a copy back from the mirror (see
      Planner.PassesDoNotDeduplicate). Once the user confirms the delete,
      the copy back finds no source, however the world changed in between
      except for the mirror tree, and the run fails. */
  lemma ConfirmedDeleteThenCopyBackFails(w: World, p: Path, skipped: set<Path>, roots: Roots, later: World)
    requires w.inbox != [] && w.inbox[0] == Some(DeletionConfirmed(true))
    requires later.remote == Apply(DeleteRemote(p), w, skipped, roots).w.remote
    ensures Apply(DeleteRemote(p), w, skipped, roots).Next?
    ensures Apply(DeleteRemote(p), w, skipped, roots).note == DeletedRemote(p)
    ensures Apply(RemoteToLocal(p), later, skipped, roots) == Halted(Failed(MissingFile(p)), later)
  {
    var sent := w.Send(ConfirmDeletion(roots.mirror + p));
    assert AcceptedAt(sent.inbox, 0, DeletionReply);
  }

  // ----- Stops come only from the inbox -----

  /** A copy sees no Stop in a Stop-free inbox and leaves it Stop-free. */
  lemma CopyStopFree(w: World, to: Side, p: Path, note: Note, skipped: set<Path>)
    requires NoStop(w.inbox)
    ensures var o := AfterCopy(CopyFile(w, to, p), note, skipped);
      NoStop(o.w.inbox) && !(o.Halted? && o.halt == StopRequested)
  {
    var src := w.TreeAt(Other(to));
    if p in src && |src[p].data| > LARGE_FILE_THRESHOLD {
      var k := ReadChecks(|src[p].data|, COPY_CHUNK);
      NoStopNeverStops(w.inbox, k);
      NoStopSuffix(w.inbox, Min(k, |w.inbox|));
    }
  }

  /** A wait on a Stop-free inbox accepts its reply, never a Stop, and
      leaves a Stop-free inbox. */
  lemma AwaitStopFree(s: Inbox, kind: Awaited)
    requires NoStop(s)
    ensures Await(s, kind).Some? ==> Await(s, kind).value.0 != Stop && NoStop(Await(s, kind).value.1)
  {
    var k := FirstAccepted(s, kind);
    if k < |s| {
      NoStopSuffix(s, k + 1);
    }
  }

  /** An action on a Stop-free inbox never halts for a Stop and leaves the
      inbox Stop-free. */
  lemma ApplyStopFree(a: SyncAction, w: World, skipped: set<Path>, roots: Roots)
    requires NoStop(w.inbox)
    ensures var o := Apply(a, w, skipped, roots);
      NoStop(o.w.inbox) && !(o.Halted? && o.halt == StopRequested)
  {
    match a
    case LocalToRemote(p) => CopyStopFree(w, RemoteSide, p, CopiedToRemote(p), skipped);
    case RemoteToLocal(p) => CopyStopFree(w, LocalSide, p, CopiedToLocal(p), skipped);
    case DeleteRemote(p) => AwaitStopFree(w.inbox, DeletionReply);
    case DeleteLocal(p) => AwaitStopFree(w.inbox, DeletionReply);
    case Conflict(p) =>
      AwaitStopFree(w.inbox, ResolutionReply);
      var sent := w.Send(AskForConflictResolution(p));
      match Await(w.inbox, ResolutionReply)
      case None =>
      case Some((m, rest)) =>
        CopyStopFree(sent.(inbox := rest), RemoteSide, p, ResolvedKeepLocal(p), skipped);
        CopyStopFree(sent.(inbox := rest), LocalSide, p, ResolvedKeepRemote(p), skipped);
  }

  // ----- The batched walk over the plan -----

  /** The executor's running state: the environment, the bytes processed
      so far and the conflicts the caller chose to skip. */
  datatype ExecState = ExecState(w: World, processed: nat, skipped: set<Path>)

  datatype Run = Finished(st: ExecState) | Interrupted(halt: Halt, st: ExecState)

  /** One action once its stop check passed: measure its size, perform it,
      then report its note to the caller and to the durable log. */
  function Step(a: SyncAction, st: ExecState, roots: Roots): Run
  {
    var size := MeasuredSize(a, st.w.local, st.w.remote);
    match Apply(a, st.w, st.skipped, roots)
    case Halted(h, w') => Interrupted(h, st.(w := w'))
    case Next(note, w', sk) =>
      Finished(ExecState(WriteLogEntry(w'.Send(Log(note)), note), st.processed + size, sk))
  }

  method RunStep(a: SyncAction, st: ExecState, roots: Roots) returns (r: Run)
    ensures r == Step(a, st, roots)
  {
    var size := MeasuredSize(a, st.w.local, st.w.remote);
    var o := ApplyAction(a, st.w, st.skipped, roots);
    if o.Halted? {
      return Interrupted(o.halt, st.(w := o.w));
    }
    var w := o.w.Send(Log(o.note));
    w := WriteLogEntry(w, o.note);
    r := Finished(ExecState(w, st.processed + size, o.skipped));
  }

  /** A completed action adds its size, as measured before it ran, to the
      processed byte count: the file's size for a copy or a conflict,
      nothing for a delete. A halted action adds nothing. */
  lemma StepCounts(a: SyncAction, st: ExecState, roots: Roots)
    ensures Step(a, st, roots).Finished? ==>
      Step(a, st, roots).st.processed == st.processed + MeasuredSize(a, st.w.local, st.w.remote)
    ensures Step(a, st, roots).Finished? && (a.DeleteLocal? || a.DeleteRemote?) ==>
      Step(a, st, roots).st.processed == st.processed
    ensures Step(a, st, roots).Interrupted? ==> Step(a, st, roots).st.processed == st.processed
  {
  }

  function Polled(st: ExecState): ExecState
  {
    st.(w := st.w.(inbox := AfterPoll(st.w.inbox)))
  }

  /** What one action does once its stop checks passed; the walk below is
      stated for any such function and run with `Step`. */
  type Stepper = (SyncAction, ExecState, Roots) -> Run

  /** The walk from index i: a stop check opens each batch of five, and
      another precedes every action. */
  function ExecFrom(plan: seq<SyncAction>, i: nat, st: ExecState, step: Stepper, roots: Roots): Run
    decreases |plan| - i, 1
  {
    if i >= |plan| then Finished(st)
    else if i % BATCH_SIZE == 0 then
      if PollIsStop(st.w.inbox) then Interrupted(StopRequested, Polled(st))
      else ExecAt(plan, i, Polled(st), step, roots)
    else ExecAt(plan, i, st, step, roots)
  }

  /** Action i after its batch's stop check. */
  function ExecAt(plan: seq<SyncAction>, i: nat, st: ExecState, step: Stepper, roots: Roots): Run
    requires i < |plan|
    decreases |plan| - i, 0
  {
    if PollIsStop(st.w.inbox) then Interrupted(StopRequested, Polled(st))
    else match step(plan[i], Polled(st), roots)
      case Interrupted(h, st') => Interrupted(h, st')
      case Finished(st') => ExecFrom(plan, i + 1, st', step, roots)
  }

  lemma InsideBatch(start: nat, i: nat)
    requires start % BATCH_SIZE == 0 && start < i < start + BATCH_SIZE
    ensures i % BATCH_SIZE != 0
  {
  }

  lemma NextBatch(start: nat)
    requires start % BATCH_SIZE == 0
    ensures (start + BATCH_SIZE) % BATCH_SIZE == 0
  {
  }

  /** Where a batch's loop stands before action i: the walk from the
      batch's first action continues as the walk from i. */
  ghost predicate BatchAt(plan: seq<SyncAction>, start: nat, i: nat, st: ExecState, st0: ExecState,
                          step: Stepper, roots: Roots)
    requires start < |plan| && start <= i <= |plan|
  {
    || (i == start && st == st0)
    || (start < i && ExecFrom(plan, i, st, step, roots) == ExecAt(plan, start, st0, step, roots))
  }

  /** Action i's stop check finds a Stop: the batch's walk ends there. */
  lemma BatchStops(plan: seq<SyncAction>, start: nat, i: nat, st: ExecState, st0: ExecState,
                   step: Stepper, roots: Roots)
    requires start % BATCH_SIZE == 0 && start <= i < start + BATCH_SIZE && i < |plan|
    requires BatchAt(plan, start, i, st, st0, step, roots) && PollIsStop(st.w.inbox)
    ensures Interrupted(StopRequested, Polled(st)) == ExecAt(plan, start, st0, step, roots)
  {
    if i > start {
      InsideBatch(start, i);
      assert ExecFrom(plan, i, st, step, roots) == ExecAt(plan, i, st, step, roots);
    }
  }

  /** Action i's stop check passes: the batch's walk halts with the
      action's halt, or goes on at i + 1. */
  lemma BatchAdvances(plan: seq<SyncAction>, start: nat, i: nat, st: ExecState, st0: ExecState,
                      step: Stepper, roots: Roots)
    requires start % BATCH_SIZE == 0 && start <= i < start + BATCH_SIZE && i < |plan|
    requires BatchAt(plan, start, i, st, st0, step, roots) && !PollIsStop(st.w.inbox)
    ensures step(plan[i], Polled(st), roots).Interrupted? ==>
      step(plan[i], Polled(st), roots) == ExecAt(plan, start, st0, step, roots)
    ensures step(plan[i], Polled(st), roots).Finished? ==>
      BatchAt(plan, start, i + 1, step(plan[i], Polled(st), roots).st, st0, step, roots)
  {
    if i > start {
      InsideBatch(start, i);
      assert ExecFrom(plan, i, st, step, roots) == ExecAt(plan, i, st, step, roots);
    }
    var s := step(plan[i], Polled(st), roots);
    if s.Finished? {
      assert ExecAt(plan, i, st, step, roots) == ExecFrom(plan, i + 1, s.st, step, roots);
    } else {
      assert ExecAt(plan, i, st, step, roots) == s;
    }
  }

  /** Action i of a batch: its stop check, then the action itself. */
  method BatchNext(plan: seq<SyncAction>, start: nat, i: nat, st: ExecState, st0: ExecState, roots: Roots)
    returns (s: Run)
    requires start % BATCH_SIZE == 0 && start <= i < start + BATCH_SIZE && i < |plan|
    requires BatchAt(plan, start, i, st, st0, Step, roots)
    ensures s.Interrupted? ==> s == ExecAt(plan, start, st0, Step, roots)
    ensures s.Finished? ==> BatchAt(plan, start, i + 1, s.st, st0, Step, roots)
  {
    if PollIsStop(st.w.inbox) {
      BatchStops(plan, start, i, st, st0, Step, roots);
      return Interrupted(StopRequested, Polled(st));
    }
    BatchAdvances(plan, start, i, st, st0, Step, roots);
    s := RunStep(plan[i], Polled(st), roots);
  }

  /** One batch, after its opening stop check: the actions start .. end-1,
      each after its own stop check. */
  method RunBatch(plan: seq<SyncAction>, start: nat, end: nat, st0: ExecState, roots: Roots)
    returns (r: Run)
    requires start < end <= |plan| && end <= start + BATCH_SIZE && start % BATCH_SIZE == 0
    ensures r.Interrupted? ==> r == ExecAt(plan, start, st0, Step, roots)
    ensures r.Finished? ==> ExecFrom(plan, end, r.st, Step, roots) == ExecAt(plan, start, st0, Step, roots)
  {
    var st := st0;
    var i := start;
    while i < end
      invariant start <= i <= end
      invariant BatchAt(plan, start, i, st, st0, Step, roots)
    {
      var s := BatchNext(plan, start, i, st, st0, roots);
      if s.Interrupted? {
        return s;
      }
      st := s.st;
      i := i + 1;
    }
    r := Finished(st);
  }

  /** Batches are the index ranges [start, min(start + 5, |plan|)); the
      loop visits every index once, in increasing order. */
  method ExecutePlan(plan: seq<SyncAction>, st0: ExecState, roots: Roots) returns (r: Run)
    ensures r == ExecFrom(plan, 0, st0, Step, roots)
  {
    var st := st0;
    var batchStart := 0;
    while batchStart < |plan|
      invariant batchStart <= |plan|
      invariant batchStart % BATCH_SIZE == 0 || batchStart == |plan|
      invariant ExecFrom(plan, batchStart, st, Step, roots) == ExecFrom(plan, 0, st0, Step, roots)
      decreases |plan| - batchStart
    {
      if PollIsStop(st.w.inbox) {
        return Interrupted(StopRequested, Polled(st));
      }
      var batchEnd := if batchStart + BATCH_SIZE < |plan| then batchStart + BATCH_SIZE else |plan|;
      r := RunBatch(plan, batchStart, batchEnd, Polled(st), roots);
      if r.Interrupted? {
        return;
      }
      st := r.st;
      if batchEnd < |plan| {
        NextBatch(batchStart);
      }
      batchStart := batchEnd;
    }
    r := Finished(st);
  }

  // ----- What a walk over the plan does -----

  /** The notes of the skipped conflicts among `notes`. */
  function SkippedIn(notes: seq<Note>): set<Path>
  {
    set k | 0 <= k < |notes| && notes[k].SkippedConflict? :: notes[k].path
  }

  lemma SkippedInAppend(n: Note, b: seq<Note>)
    ensures SkippedIn([n] + b) == (if n.SkippedConflict? then {n.path} else {}) + SkippedIn(b)
  {
    var s := [n] + b;
    if n.SkippedConflict? {
      assert s[0] == n && n.path in SkippedIn(s);
    }
    forall q | q in SkippedIn(s) ensures q in (if n.SkippedConflict? then {n.path} else {}) + SkippedIn(b)
    {
      var k :| 0 <= k < |s| && s[k].SkippedConflict? && s[k].path == q;
      if k > 0 {
        assert s[k] == b[k - 1];
      }
    }
    forall q | q in SkippedIn(b) ensures q in SkippedIn(s)
    {
      var k :| 0 <= k < |b| && b[k].SkippedConflict? && b[k].path == q;
      assert s[k + 1] == b[k];
    }
  }

  /** Nothing logged, saved, skipped or counted between the two states,
      and no Log message sent. */
  predicate Quiet(st: ExecState, st': ExecState)
  {
    && st'.w.logFile == st.w.logFile && st'.w.meta == st.w.meta
    && st'.skipped == st.skipped && st'.processed == st.processed
    && |st.w.outbox| <= |st'.w.outbox| && st'.w.outbox[..|st.w.outbox|] == st.w.outbox
    && LogNotes(st'.w.outbox[|st.w.outbox|..]) == []
  }

  /** Exactly one line, reporting `a`, logged and sent between the two
      states, after the action's request. */
  predicate LoggedOne(a: SyncAction, roots: Roots, st: ExecState, st': ExecState)
  {
    && |st'.w.logFile| == |st.w.logFile| + 1
    && st'.w.logFile[..|st.w.logFile|] == st.w.logFile
    && var n := st'.w.logFile[|st.w.logFile|];
    && Reports(a, n)
    && st'.w.outbox == st.w.outbox + Request(a, roots) + [Log(n)]
    && st'.w.meta == st.w.meta
    && st'.skipped == (if n.SkippedConflict? then st.skipped + {n.path} else st.skipped)
    && st'.processed >= st.processed
  }

  /** `step` acts as one action should: a halted action logs, saves,
      skips and counts nothing and sends no Log message; a completed one
      logs exactly one line reporting the action. */
  predicate StepLogs(step: Stepper, roots: Roots, a: SyncAction, st: ExecState)
  {
    match step(a, st, roots)
    case Interrupted(_, st') => Quiet(st, st')
    case Finished(st') => LoggedOne(a, roots, st, st')
  }

  ghost predicate StepsLog(step: Stepper, roots: Roots)
  {
    forall a, st :: StepLogs(step, roots, a, st)
  }

  /** The executor's own step acts as one action should. */
  lemma StepLogsAlways(roots: Roots)
    ensures StepsLog(Step, roots)
  {
    forall a, st ensures StepLogs(Step, roots, a, st)
    {
      ApplyFrame(a, st.w, st.skipped, roots);
      var o := Apply(a, st.w, st.skipped, roots);
      var req := Request(a, roots);
      if o.Halted? {
        assert o.w.outbox[|st.w.outbox|..] == req;
      } else {
        var st3 := Step(a, st, roots).st;
        assert st3.w.logFile == st.w.logFile + [o.note];
        assert st3.w.outbox == st.w.outbox + req + [Log(o.note)];
      }
    }
  }

  /** `step` never halts for a Stop that is not in its inbox and brings
      no Stop into it. */
  predicate StepStopFree(step: Stepper, roots: Roots, a: SyncAction, st: ExecState)
  {
    NoStop(st.w.inbox) ==>
      NoStop(step(a, st, roots).st.w.inbox)
      && !(step(a, st, roots).Interrupted? && step(a, st, roots).halt == StopRequested)
  }

  ghost predicate StepsStopFree(step: Stepper, roots: Roots)
  {
    forall a, st :: StepStopFree(step, roots, a, st)
  }

  /** The executor's own step takes its Stops from the inbox only. */
  lemma StepStopsOnlyOnStop(roots: Roots)
    ensures StepsStopFree(Step, roots)
  {
    forall a, st ensures StepStopFree(Step, roots, a, st)
    {
      if NoStop(st.w.inbox) {
        ApplyStopFree(a, st.w, st.skipped, roots);
      }
    }
  }

  /** The state action i starts from, after its stop checks. */
  function Checked(i: nat, st: ExecState): ExecState
  {
    Polled(if i % BATCH_SIZE == 0 then Polled(st) else st)
  }

  /** One index of the walk: either it ends the walk quietly, or its action
      completes, logging one line, and the walk goes on from i + 1. */
  lemma ExecStep(plan: seq<SyncAction>, i: nat, st: ExecState, step: Stepper, roots: Roots)
    requires i < |plan| && StepsLog(step, roots)
    ensures
      || (ExecFrom(plan, i, st, step, roots).Interrupted? && Quiet(st, ExecFrom(plan, i, st, step, roots).st))
      || (&& step(plan[i], Checked(i, st), roots).Finished?
          && ExecFrom(plan, i, st, step, roots) == ExecFrom(plan, i + 1, step(plan[i], Checked(i, st), roots).st, step, roots)
          && LoggedOne(plan[i], roots, st, step(plan[i], Checked(i, st), roots).st))
  {
    var st1 := if i % BATCH_SIZE == 0 then Polled(st) else st;
    if i % BATCH_SIZE == 0 && PollIsStop(st.w.inbox) {
      assert Quiet(st, Polled(st));
    } else if PollIsStop(st1.w.inbox) {
      assert ExecFrom(plan, i, st, step, roots) == Interrupted(StopRequested, Polled(st1));
      assert Quiet(st, Polled(st1));
    } else {
      var st2 := Polled(st1);
      assert StepLogs(step, roots, plan[i], st2);
      if step(plan[i], st2, roots).Interrupted? {
        assert ExecFrom(plan, i, st, step, roots) == step(plan[i], st2, roots);
      }
    }
  }

  /** The stop checks before action i: at the head of a batch (i a
      multiple of five) the batch's poll comes first; then the action's own
      poll. A Stop at either ends the walk there, with that poll consumed;
      otherwise the action runs on what is left, and the walk halts with
      it or goes on at i + 1. */
  lemma ExecChecks(plan: seq<SyncAction>, i: nat, st: ExecState, step: Stepper, roots: Roots)
    requires i < |plan|
    ensures i % BATCH_SIZE == 0 && PollIsStop(st.w.inbox) ==>
      ExecFrom(plan, i, st, step, roots) == Interrupted(StopRequested, Polled(st))
    ensures var st1 := if i % BATCH_SIZE == 0 then Polled(st) else st;
      !(i % BATCH_SIZE == 0 && PollIsStop(st.w.inbox)) && PollIsStop(st1.w.inbox) ==>
        ExecFrom(plan, i, st, step, roots) == Interrupted(StopRequested, Polled(st1))
    ensures var st1 := if i % BATCH_SIZE == 0 then Polled(st) else st;
      !(i % BATCH_SIZE == 0 && PollIsStop(st.w.inbox)) && !PollIsStop(st1.w.inbox) ==>
        && Checked(i, st) == Polled(st1)
        && (step(plan[i], Polled(st1), roots).Interrupted? ==>
              ExecFrom(plan, i, st, step, roots) == step(plan[i], Polled(st1), roots))
        && (step(plan[i], Polled(st1), roots).Finished? ==>
              ExecFrom(plan, i, st, step, roots) ==
              ExecFrom(plan, i + 1, step(plan[i], Polled(st1), roots).st, step, roots))
  {
    var st1 := if i % BATCH_SIZE == 0 then Polled(st) else st;
    if !(i % BATCH_SIZE == 0 && PollIsStop(st.w.inbox)) {
      assert ExecFrom(plan, i, st, step, roots) == ExecAt(plan, i, st1, step, roots);
    }
  }

  /** Without a Stop in the inbox, the walk never ends stopped by the
      user: it finishes, fails or waits. */
  lemma {:induction false} WalkStopsOnlyOnStop(plan: seq<SyncAction>, i: nat, st: ExecState, step: Stepper, roots: Roots)
    requires i <= |plan| && StepsStopFree(step, roots) && NoStop(st.w.inbox)
    decreases |plan| - i
    ensures ExecFrom(plan, i, st, step, roots).Interrupted? ==> ExecFrom(plan, i, st, step, roots).halt != StopRequested
    ensures NoStop(ExecFrom(plan, i, st, step, roots).st.w.inbox)
  {
    if i < |plan| {
      var st1 := if i % BATCH_SIZE == 0 then Polled(st) else st;
      NoStopSuffix(st.w.inbox, if st.w.inbox == [] then 0 else 1);
      NoStopSuffix(st1.w.inbox, if st1.w.inbox == [] then 0 else 1);
      ExecChecks(plan, i, st, step, roots);
      var r := step(plan[i], Polled(st1), roots);
      assert StepStopFree(step, roots, plan[i], Polled(st1));
      if r.Finished? {
        WalkStopsOnlyOnStop(plan, i + 1, r.st, step, roots);
      }
    }
  }

  /** From index i on, the walk only appends to the log file and to the
      messages sent, never writes the baseline, and never lowers the
      processed total. */
  lemma {:induction false} ExecFrame(plan: seq<SyncAction>, i: nat, st: ExecState, step: Stepper, roots: Roots)
    requires i <= |plan| && StepsLog(step, roots)
    decreases |plan| - i
    ensures var st' := ExecFrom(plan, i, st, step, roots).st;
      && |st.w.logFile| <= |st'.w.logFile| && st'.w.logFile[..|st.w.logFile|] == st.w.logFile
      && |st.w.outbox| <= |st'.w.outbox| && st'.w.outbox[..|st.w.outbox|] == st.w.outbox
      && st'.w.meta == st.w.meta
      && st'.processed >= st.processed
  {
    if i < |plan| {
      ExecStep(plan, i, st, step, roots);
      var r := ExecFrom(plan, i, st, step, roots);
      if !r.Interrupted? || !Quiet(st, r.st) {
        var st3 := step(plan[i], Checked(i, st), roots).st;
        ExecFrame(plan, i + 1, st3, step, roots);
        var st' := r.st;
        assert st'.w.logFile[..|st.w.logFile|] == st'.w.logFile[..|st3.w.logFile|][..|st.w.logFile|];
        assert st'.w.outbox[..|st.w.outbox|] == st'.w.outbox[..|st3.w.outbox|][..|st.w.outbox|];
      }
    }
  }

  /** One logged action in front of a walk that logs its actions in plan
      order logs them all in plan order. */
  lemma LogCons(plan: seq<SyncAction>, i: nat, roots: Roots, st: ExecState, st3: ExecState,
                last: ExecState, finished: bool)
    requires i < |plan| && LoggedOne(plan[i], roots, st, st3)
    requires |st3.w.logFile| <= |last.w.logFile| && last.w.logFile[..|st3.w.logFile|] == st3.w.logFile
    requires var lines := last.w.logFile[|st3.w.logFile|..];
      && i + 1 + |lines| <= |plan|
      && (finished ==> i + 1 + |lines| == |plan|)
      && (forall k :: 0 <= k < |lines| ==> Reports(plan[i + 1 + k], lines[k]))
    ensures |st.w.logFile| <= |last.w.logFile|
    ensures var lines := last.w.logFile[|st.w.logFile|..];
      && i + |lines| <= |plan|
      && (finished ==> i + |lines| == |plan|)
      && (forall k :: 0 <= k < |lines| ==> Reports(plan[i + k], lines[k]))
  {
    var n := st3.w.logFile[|st.w.logFile|];
    var rest := last.w.logFile[|st3.w.logFile|..];
    var lines := last.w.logFile[|st.w.logFile|..];
    assert lines == [n] + rest;
    forall k | 0 <= k < |lines| ensures Reports(plan[i + k], lines[k])
    {
      if k > 0 {
        assert lines[k] == rest[k - 1];
      }
    }
  }

  /** From index i on, the walk writes one log line per completed action,
      in plan order, each reporting its own action, and one for every
      remaining action when it finishes. */
  lemma {:induction false} ExecLog(plan: seq<SyncAction>, i: nat, st: ExecState, step: Stepper, roots: Roots)
    requires i <= |plan| && StepsLog(step, roots)
    decreases |plan| - i
    ensures var st' := ExecFrom(plan, i, st, step, roots).st;
      && |st.w.logFile| <= |st'.w.logFile|
      && var lines := st'.w.logFile[|st.w.logFile|..];
      && i + |lines| <= |plan|
      && (ExecFrom(plan, i, st, step, roots).Finished? ==> i + |lines| == |plan|)
      && (forall k :: 0 <= k < |lines| ==> Reports(plan[i + k], lines[k]))
  {
    if i < |plan| {
      ExecStep(plan, i, st, step, roots);
      var r := ExecFrom(plan, i, st, step, roots);
      if r.Interrupted? && Quiet(st, r.st) {
        assert r.st.w.logFile[|st.w.logFile|..] == [];
      } else {
        var st3 := step(plan[i], Checked(i, st), roots).st;
        ExecLog(plan, i + 1, st3, step, roots);
        ExecFrame(plan, i + 1, st3, step, roots);
        LogCons(plan, i, roots, st, st3, r.st, r.Finished?);
      }
    } else {
      assert st.w.logFile[|st.w.logFile|..] == [];
    }
  }

  /** The requests sent before an action are not log messages. */
  lemma RequestIsNotLog(a: SyncAction, roots: Roots)
    ensures |Request(a, roots)| <= 1
    ensures LogNotes(Request(a, roots)) == []
  {
    var req := Request(a, roots);
    if req != [] {
      assert req[..|req| - 1] == [];
    }
  }

  /** One logged action in front of a walk whose Log messages match its
      log lines keeps them matched. */
  lemma SentCons(a: SyncAction, roots: Roots, st: ExecState, st3: ExecState, last: ExecState)
    requires LoggedOne(a, roots, st, st3)
    requires |st3.w.logFile| <= |last.w.logFile| && last.w.logFile[..|st3.w.logFile|] == st3.w.logFile
    requires |st3.w.outbox| <= |last.w.outbox| && last.w.outbox[..|st3.w.outbox|] == st3.w.outbox
    requires LogNotes(last.w.outbox[|st3.w.outbox|..]) == last.w.logFile[|st3.w.logFile|..]
    ensures |st.w.logFile| <= |last.w.logFile| && |st.w.outbox| <= |last.w.outbox|
    ensures LogNotes(last.w.outbox[|st.w.outbox|..]) == last.w.logFile[|st.w.logFile|..]
  {
    var n := st3.w.logFile[|st.w.logFile|];
    var req := Request(a, roots);
    RequestIsNotLog(a, roots);
    var rest := last.w.logFile[|st3.w.logFile|..];
    assert last.w.logFile[|st.w.logFile|..] == [n] + rest;
    var tail := last.w.outbox[|st3.w.outbox|..];
    assert last.w.outbox[|st.w.outbox|..] == req + [Log(n)] + tail;
    LogNotesAppend(req + [Log(n)], tail);
    LogNotesAppend(req, [Log(n)]);
    assert LogNotes([Log(n)]) == [n] by {
      assert [Log(n)][..0] == [];
    }
  }

  /** From index i on, every log line written is also sent to the caller as
      a Log message, in the same order, and no other Log message is sent. */
  lemma {:induction false} ExecSent(plan: seq<SyncAction>, i: nat, st: ExecState, step: Stepper, roots: Roots)
    requires i <= |plan| && StepsLog(step, roots)
    decreases |plan| - i
    ensures var st' := ExecFrom(plan, i, st, step, roots).st;
      && |st.w.logFile| <= |st'.w.logFile| && |st.w.outbox| <= |st'.w.outbox|
      && LogNotes(st'.w.outbox[|st.w.outbox|..]) == st'.w.logFile[|st.w.logFile|..]
  {
    if i < |plan| {
      ExecStep(plan, i, st, step, roots);
      var r := ExecFrom(plan, i, st, step, roots);
      if r.Interrupted? && Quiet(st, r.st) {
        assert r.st.w.logFile[|st.w.logFile|..] == [];
      } else {
        var st3 := step(plan[i], Checked(i, st), roots).st;
        ExecSent(plan, i + 1, st3, step, roots);
        ExecFrame(plan, i + 1, st3, step, roots);
        SentCons(plan[i], roots, st, st3, r.st);
      }
    } else {
      assert st.w.outbox[|st.w.outbox|..] == [];
      assert st.w.logFile[|st.w.logFile|..] == [];
    }
  }

  /** From index i on, the skipped paths grow by exactly the paths of the
      skipped conflicts the walk logs. */
  lemma {:induction false} ExecSkipped(plan: seq<SyncAction>, i: nat, st: ExecState, step: Stepper, roots: Roots)
    requires i <= |plan| && StepsLog(step, roots)
    decreases |plan| - i
    ensures var st' := ExecFrom(plan, i, st, step, roots).st;
      && |st.w.logFile| <= |st'.w.logFile|
      && st'.skipped == st.skipped + SkippedIn(st'.w.logFile[|st.w.logFile|..])
  {
    ExecFrame(plan, i, st, step, roots);
    if i < |plan| {
      ExecStep(plan, i, st, step, roots);
      var r := ExecFrom(plan, i, st, step, roots);
      if r.Interrupted? && Quiet(st, r.st) {
        assert r.st.w.logFile[|st.w.logFile|..] == [];
      } else {
        var st3 := step(plan[i], Checked(i, st), roots).st;
        var n := st3.w.logFile[|st.w.logFile|];
        ExecSkipped(plan, i + 1, st3, step, roots);
        ExecFrame(plan, i + 1, st3, step, roots);
        var rest := r.st.w.logFile[|st3.w.logFile|..];
        assert r.st.w.logFile[|st.w.logFile|..] == [n] + rest;
        SkippedInAppend(n, rest);
      }
    }
  }
}
