/** The sync planner: turns the local and remote changes since the last
    sync into an ordered list of actions, in three passes, and sizes the
    plan. The change detector comparing two snapshots is a parameter. */
module Planner {
  import opened Models
  import opened Env

  /** The change detector: the changes that lead from the first snapshot
      to the second. */
  type Compare = (SyncData, SyncData) -> seq<FileChange>

  /** The baseline restricted to the paths present locally: what the
      remote changes are measured against. */
  function Restrict(last: SyncData, local: SyncData): (r: SyncData)
    ensures r.files.Keys == last.files.Keys * local.files.Keys
    ensures forall p :: p in r.files ==> r.files[p] == last.files[p]
  {
    SyncData(map p | p in last.files && p in local.files :: last.files[p])
  }

  // ----- Pass 1: local changes -----

  function LocalAction(c: FileChange): SyncAction
  {
    match c
    case Added(p) => LocalToRemote(p)
    case Modified(p) => LocalToRemote(p)
    case Removed(p) => DeleteRemote(p)
  }

  function LocalPass(cs: seq<FileChange>): (r: seq<SyncAction>)
    ensures |r| == |cs|
  {
    if cs == [] then [] else LocalPass(cs[..|cs| - 1]) + [LocalAction(cs[|cs| - 1])]
  }

  /** Each local change becomes exactly one action, in order: an added or
      modified file is copied to the mirror, a removed one is deleted there. */
  lemma {:induction false} LocalPassOnePerChange(cs: seq<FileChange>)
    ensures |LocalPass(cs)| == |cs|
    ensures forall i :: 0 <= i < |cs| ==>
      LocalPass(cs)[i] == (if cs[i].Removed? then DeleteRemote(cs[i].path) else LocalToRemote(cs[i].path))
  {
    if cs != [] {
      LocalPassOnePerChange(cs[..|cs| - 1]);
    }
  }

  // ----- Pass 2: remote changes -----

  /** Both the local copy and the baseline hold `p` and the local hash
      differs from the baseline's. */
  predicate ChangedLocally(p: Path, local: SyncData, last: SyncData)
  {
    p in local.files && p in last.files && local.files[p].hash != last.files[p].hash
  }

  function RemoteAction(c: FileChange, local: SyncData, last: SyncData): SyncAction
  {
    match c
    case Removed(p) => DeleteLocal(p)
    case _ => if ChangedLocally(c.path, local, last) then Conflict(c.path) else RemoteToLocal(c.path)
  }

  function RemotePass(cs: seq<FileChange>, local: SyncData, last: SyncData): (r: seq<SyncAction>)
    ensures |r| == |cs|
  {
    if cs == [] then []
    else RemotePass(cs[..|cs| - 1], local, last) + [RemoteAction(cs[|cs| - 1], local, last)]
  }

  /** Each remote change becomes exactly one action, in order: a removed
      file is deleted locally; an added or modified one is a conflict when
      it also changed locally since the baseline, and is copied to the
      local folder otherwise. */
  lemma {:induction false} RemotePassOnePerChange(cs: seq<FileChange>, local: SyncData, last: SyncData)
    ensures |RemotePass(cs, local, last)| == |cs|
    ensures forall i :: 0 <= i < |cs| ==>
      RemotePass(cs, local, last)[i] ==
        (if cs[i].Removed? then DeleteLocal(cs[i].path)
         else if ChangedLocally(cs[i].path, local, last) then Conflict(cs[i].path)
         else RemoteToLocal(cs[i].path))
  {
    if cs != [] {
      RemotePassOnePerChange(cs[..|cs| - 1], local, last);
    }
  }

  // ----- Pass 3: the conflict sweep -----

  /** The paths named by a non-conflict action. */
  function ProcessedPaths(plan: seq<SyncAction>): set<Path>
  {
    set i | 0 <= i < |plan| && !plan[i].Conflict? :: plan[i].path
  }

  /** The sweep's condition for a local path not yet processed: present in
      the mirror and the baseline, with both hashes differing from the
      baseline's. */
  predicate SweepConflict(p: Path, local: SyncData, remote: SyncData, last: SyncData, processed: set<Path>)
  {
    && p in local.files && p !in processed
    && p in remote.files && p in last.files
    && local.files[p].hash != last.files[p].hash
    && remote.files[p].hash != last.files[p].hash
  }

  function SweepSet(local: SyncData, remote: SyncData, last: SyncData, processed: set<Path>): set<Path>
  {
    set p | p in local.files && SweepConflict(p, local, remote, last, processed)
  }

  /** `s` lists one Conflict for each path of `paths` and nothing else, in
      some order (the order of a hash map's iteration). */
  predicate IsSweep(s: seq<SyncAction>, paths: set<Path>)
  {
    && (forall i :: 0 <= i < |s| ==> s[i].Conflict? && s[i].path in paths)
    && (forall p :: p in paths ==> Conflict(p) in s)
    && (forall i, j :: 0 <= i < j < |s| ==> s[i] != s[j])
  }

  /** The actions of the first two passes. */
  function Head(local: SyncData, remote: SyncData, last: SyncData, compare: Compare): seq<SyncAction>
  {
    LocalPass(compare(last, local)) + RemotePass(compare(Restrict(last, local), remote), local, last)
  }

  /** A plan of two snapshots: the local pass, then the remote pass, then
      the sweep's conflicts. */
  predicate PlanOf(plan: seq<SyncAction>, local: SyncData, remote: SyncData, last: SyncData, compare: Compare)
  {
    var head := Head(local, remote, last, compare);
    && |head| <= |plan|
    && plan[..|head|] == head
    && IsSweep(plan[|head|..], SweepSet(local, remote, last, ProcessedPaths(head)))
  }

  /** Number of polls the first two passes make: one per change. */
  function PlanPolls(local: SyncData, remote: SyncData, last: SyncData, compare: Compare): nat
  {
    |compare(last, local)| + |compare(Restrict(last, local), remote)|
  }

  lemma LocalPassExtend(cs: seq<FileChange>, i: nat)
    requires i < |cs|
    ensures LocalPass(cs[..i + 1]) == LocalPass(cs[..i]) + [LocalAction(cs[i])]
  {
    assert cs[..i + 1][..i] == cs[..i];
  }

  lemma RemotePassExtend(cs: seq<FileChange>, local: SyncData, last: SyncData, j: nat)
    requires j < |cs|
    ensures RemotePass(cs[..j + 1], local, last) == RemotePass(cs[..j], local, last) + [RemoteAction(cs[j], local, last)]
  {
    assert cs[..j + 1][..j] == cs[..j];
  }

  /** The local pass: polls the inbox once before each change and gives up
      at the first Stop; otherwise appends one action per change. */
  method LocalChangesPass(changes: seq<FileChange>, inbox: Inbox)
    returns (stopped: bool, actions: seq<SyncAction>, rest: Inbox)
    ensures stopped <==> StopWithin(inbox, |changes|)
    ensures rest == AfterPolls(inbox, |changes|)
    ensures !stopped ==> actions == LocalPass(changes)
  {
    actions, rest := [], inbox;
    var i := 0;
    while i < |changes|
      invariant 0 <= i <= |changes|
      invariant actions == LocalPass(changes[..i])
      invariant !StopWithin(inbox, i) && rest == inbox[Min(i, |inbox|)..]
    {
      PollAt(inbox, i, |changes|, rest);
      if PollIsStop(rest) {
        return true, actions, AfterPoll(rest);
      }
      rest := AfterPoll(rest);
      var a: SyncAction;
      if changes[i].Removed? {
        a := DeleteRemote(changes[i].path);
      } else {
        a := LocalToRemote(changes[i].path);
      }
      LocalPassExtend(changes, i);
      actions := actions + [a];
      i := i + 1;
    }
    assert changes[..i] == changes;
    stopped := false;
  }

  /** The remote pass, appending to the local pass's actions. */
  method RemoteChangesPass(changes: seq<FileChange>, local: SyncData, last: SyncData,
                           before: seq<SyncAction>, inbox: Inbox)
    returns (stopped: bool, actions: seq<SyncAction>, rest: Inbox)
    ensures stopped <==> StopWithin(inbox, |changes|)
    ensures rest == AfterPolls(inbox, |changes|)
    ensures !stopped ==> actions == before + RemotePass(changes, local, last)
  {
    actions, rest := before, inbox;
    var j := 0;
    while j < |changes|
      invariant 0 <= j <= |changes|
      invariant actions == before + RemotePass(changes[..j], local, last)
      invariant !StopWithin(inbox, j) && rest == inbox[Min(j, |inbox|)..]
    {
      PollAt(inbox, j, |changes|, rest);
      if PollIsStop(rest) {
        return true, actions, AfterPoll(rest);
      }
      rest := AfterPoll(rest);
      var p := changes[j].path;
      var a: SyncAction;
      if changes[j].Removed? {
        a := DeleteLocal(p);
      } else if p in local.files && p in last.files && local.files[p].hash != last.files[p].hash {
        // Changed on both sides since the baseline: a conflict.
        a := Conflict(p);
      } else {
        a := RemoteToLocal(p);
      }
      RemotePassExtend(changes, local, last, j);
      actions := actions + [a];
      j := j + 1;
    }
    assert changes[..j] == changes;
    stopped := false;
  }

  /** The paths already named by a copy or a delete. */
  method CollectProcessed(plan: seq<SyncAction>) returns (processed: set<Path>)
    ensures processed == ProcessedPaths(plan)
  {
    processed := {};
    var k := 0;
    while k < |plan|
      invariant 0 <= k <= |plan|
      invariant processed == ProcessedPaths(plan[..k])
    {
      assert plan[..k + 1][..k] == plan[..k];
      if !plan[k].Conflict? {
        processed := processed + {plan[k].path};
      }
      k := k + 1;
    }
    assert plan[..k] == plan;
  }

  /** The sweep over the local snapshot, in unspecified order. */
  method SweepConflicts(local: SyncData, remote: SyncData, last: SyncData, processed: set<Path>)
    returns (sweep: seq<SyncAction>)
    ensures IsSweep(sweep, SweepSet(local, remote, last, processed))
  {
    ghost var wanted := SweepSet(local, remote, last, processed);
    sweep := [];
    var todo := local.files.Keys;
    while todo != {}
      invariant todo <= local.files.Keys
      invariant forall i :: 0 <= i < |sweep| ==>
        sweep[i].Conflict? && sweep[i].path in wanted && sweep[i].path !in todo
      invariant forall p :: p in wanted && p !in todo ==> Conflict(p) in sweep
      invariant forall i, j :: 0 <= i < j < |sweep| ==> sweep[i] != sweep[j]
      decreases todo
    {
      var p :| p in todo;
      todo := todo - {p};
      if p !in processed && p in remote.files && p in last.files {
        if local.files[p].hash != last.files[p].hash && remote.files[p].hash != last.files[p].hash {
          sweep := sweep + [Conflict(p)];
        }
      }
    }
  }

  /** Builds the plan. Each change of the first two passes polls the inbox
      once before it is handled, and a Stop abandons the plan. The plan is
      only appended to: the local pass, then the remote pass (measured
      against the baseline restricted to the local paths), then the
      sweep's conflicts. */
  method BuildPlan(local: SyncData, remote: SyncData, last: SyncData, compare: Compare, inbox: Inbox)
    returns (plan: Option<seq<SyncAction>>, rest: Inbox)
    ensures rest == AfterPolls(inbox, PlanPolls(local, remote, last, compare))
    ensures plan.None? <==> StopWithin(inbox, PlanPolls(local, remote, last, compare))
    ensures plan.Some? ==> PlanOf(plan.value, local, remote, last, compare)
  {
    var localChanges := compare(last, local);
    var stopped, actions, rest1 := LocalChangesPass(localChanges, inbox);
    if stopped {
      StopWithinMonotone(inbox, |localChanges|, PlanPolls(local, remote, last, compare));
      return None, rest1;
    }
    var remoteChanges := compare(Restrict(last, local), remote);
    PollsCompose(inbox, |localChanges|, |remoteChanges|);
    assert PlanPolls(local, remote, last, compare) == |localChanges| + |remoteChanges|;
    stopped, actions, rest := RemoteChangesPass(remoteChanges, local, last, actions, rest1);
    if stopped {
      return None, rest;
    }
    ghost var head := Head(local, remote, last, compare);
    assert actions == head;
    var processed := CollectProcessed(actions);
    var sweep := SweepConflicts(local, remote, last, processed);
    plan := Some(actions + sweep);
    assert plan.value[..|head|] == head && plan.value[|head|..] == sweep;
  }

  // ----- Sizing -----

  /** Bytes a planned action will transfer, read from the current trees:
      the local file for a copy to the mirror and for a conflict, the
      mirror's file for a copy to the local folder, nothing for a delete;
      a missing file is an error. */
  function ActionSize(a: SyncAction, local: Tree, remote: Tree): Result<nat>
  {
    match a
    case LocalToRemote(p) => if p in local then Ok(|local[p].data|) else Err(MissingFile(p))
    case Conflict(p) => if p in local then Ok(|local[p].data|) else Err(MissingFile(p))
    case RemoteToLocal(p) => if p in remote then Ok(|remote[p].data|) else Err(MissingFile(p))
    case DeleteLocal(_) => Ok(0)
    case DeleteRemote(_) => Ok(0)
  }

  /** The fallible left fold that totals a plan: it stops at the first
      action whose file is missing. */
  function SizeFold(acc: nat, plan: seq<SyncAction>, local: Tree, remote: Tree): Result<nat>
    decreases |plan|
  {
    if plan == [] then Ok(acc)
    else match ActionSize(plan[0], local, remote)
      case Err(e) => Err(e)
      case Ok(n) => SizeFold(acc + n, plan[1..], local, remote)
  }

  function PlanSize(plan: seq<SyncAction>, local: Tree, remote: Tree): Result<nat>
  {
    SizeFold(0, plan, local, remote)
  }

  /** The size the executor measures before running an action: as above,
      but a missing file measures 0. */
  function MeasuredSize(a: SyncAction, local: Tree, remote: Tree): nat
  {
    match ActionSize(a, local, remote)
    case Ok(n) => n
    case Err(_) => 0
  }

  function MeasuredTotal(plan: seq<SyncAction>, local: Tree, remote: Tree): nat
  {
    if plan == [] then 0 else MeasuredSize(plan[0], local, remote) + MeasuredTotal(plan[1..], local, remote)
  }

  /** The fold succeeds exactly when every action's file is present, and
      then adds the actions' sizes to the accumulator. */
  lemma {:induction false} SizeFoldMeaning(acc: nat, plan: seq<SyncAction>, local: Tree, remote: Tree)
    decreases |plan|
    ensures SizeFold(acc, plan, local, remote).Ok? <==>
      forall i :: 0 <= i < |plan| ==> ActionSize(plan[i], local, remote).Ok?
    ensures SizeFold(acc, plan, local, remote).Ok? ==>
      SizeFold(acc, plan, local, remote).value == acc + MeasuredTotal(plan, local, remote)
  {
    if plan != [] {
      var a := ActionSize(plan[0], local, remote);
      if a.Ok? {
        SizeFoldMeaning(acc + a.value, plan[1..], local, remote);
        forall i | 0 <= i < |plan[1..]| ensures plan[1..][i] == plan[i + 1] { }
      }
    }
  }

  /** A failed fold fails with the error of the first action whose file is
      missing. */
  lemma {:induction false} SizeFoldFirstError(acc: nat, plan: seq<SyncAction>, local: Tree, remote: Tree)
    decreases |plan|
    ensures SizeFold(acc, plan, local, remote).Err? ==>
      exists i :: 0 <= i < |plan| &&
        SizeFold(acc, plan, local, remote) == ActionSize(plan[i], local, remote) &&
        forall j :: 0 <= j < i ==> ActionSize(plan[j], local, remote).Ok?
  {
    if plan != [] {
      var a := ActionSize(plan[0], local, remote);
      if a.Ok? && SizeFold(acc, plan, local, remote).Err? {
        var tail := plan[1..];
        SizeFoldFirstError(acc + a.value, tail, local, remote);
        var i :| 0 <= i < |tail| &&
          SizeFold(acc + a.value, tail, local, remote) == ActionSize(tail[i], local, remote) &&
          forall j :: 0 <= j < i ==> ActionSize(tail[j], local, remote).Ok?;
        assert forall j :: 1 <= j < i + 1 ==> plan[j] == tail[j - 1];
        assert SizeFold(acc, plan, local, remote) == ActionSize(plan[i + 1], local, remote);
      } else if a.Err? {
        assert SizeFold(acc, plan, local, remote) == ActionSize(plan[0], local, remote);
      }
    }
  }

  /** The plan's total size is defined exactly when every copied or
      conflicting file is present, and it is then the sum of the sizes the
      executor will measure on the same trees; otherwise the error names
      the first action whose file is missing. */
  lemma PlanSizeMeaning(plan: seq<SyncAction>, local: Tree, remote: Tree)
    ensures PlanSize(plan, local, remote).Ok? <==>
      forall i :: 0 <= i < |plan| ==> ActionSize(plan[i], local, remote).Ok?
    ensures PlanSize(plan, local, remote).Ok? ==>
      PlanSize(plan, local, remote).value == MeasuredTotal(plan, local, remote)
    ensures PlanSize(plan, local, remote).Err? ==>
      exists i :: 0 <= i < |plan| &&
        PlanSize(plan, local, remote) == Err(MissingFile(plan[i].path)) &&
        forall j :: 0 <= j < i ==> ActionSize(plan[j], local, remote).Ok?
  {
    SizeFoldMeaning(0, plan, local, remote);
    SizeFoldFirstError(0, plan, local, remote);
  }

  /** Deletes add nothing to the total; each copy or conflict adds its
      file's size. */
  lemma {:induction false} MeasuredTotalAppend(plan: seq<SyncAction>, a: SyncAction, local: Tree, remote: Tree)
    ensures MeasuredTotal(plan + [a], local, remote) ==
      MeasuredTotal(plan, local, remote) + MeasuredSize(a, local, remote)
    ensures a.DeleteLocal? || a.DeleteRemote? ==>
      MeasuredTotal(plan + [a], local, remote) == MeasuredTotal(plan, local, remote)
  {
    if plan != [] {
      assert (plan + [a])[1..] == plan[1..] + [a];
      MeasuredTotalAppend(plan[1..], a, local, remote);
    }
  }

  // ----- What the passes do to one path -----

  /** The plan is not deduplicated: a path changed on both sides is copied
      to the mirror by the local pass before the remote pass raises its
      conflict, and a path deleted locally is deleted on the mirror and
      then copied back from it. */
  lemma PassesDoNotDeduplicate(lc: seq<FileChange>, rc: seq<FileChange>, local: SyncData,
                               last: SyncData, p: Path, i: nat, j: nat)
    requires i < |lc| && j < |rc| && lc[i].path == p && rc[j].path == p && !rc[j].Removed?
    ensures var head := LocalPass(lc) + RemotePass(rc, local, last);
      && (!lc[i].Removed? && ChangedLocally(p, local, last) ==>
            head[i] == LocalToRemote(p) && head[|lc| + j] == Conflict(p))
      && (lc[i].Removed? && p !in local.files ==>
            head[i] == DeleteRemote(p) && head[|lc| + j] == RemoteToLocal(p))
  {
    LocalPassOnePerChange(lc);
    RemotePassOnePerChange(rc, local, last);
  }

  /** A path present on all three sides whose local and remote hashes both
      differ from the baseline's gets a Conflict, from the remote pass or
      from the sweep, unless the local pass names it and the remote pass
      does not, or the remote pass reports it removed. */
  lemma ConflictCoverage(local: SyncData, remote: SyncData, last: SyncData, compare: Compare, p: Path)
    requires p in local.files && p in remote.files && p in last.files
    requires local.files[p].hash != last.files[p].hash && remote.files[p].hash != last.files[p].hash
    ensures var lc, rc := compare(last, local), compare(Restrict(last, local), remote);
      || Conflict(p) in Head(local, remote, last, compare)
      || p in SweepSet(local, remote, last, ProcessedPaths(Head(local, remote, last, compare)))
      || (exists j :: 0 <= j < |rc| && rc[j] == Removed(p))
      || ((exists i :: 0 <= i < |lc| && lc[i].path == p) && forall j :: 0 <= j < |rc| ==> rc[j].path != p)
  {
    var lc, rc := compare(last, local), compare(Restrict(last, local), remote);
    var head := Head(local, remote, last, compare);
    LocalPassOnePerChange(lc);
    RemotePassOnePerChange(rc, local, last);
    if j :| 0 <= j < |rc| && rc[j].path == p && !rc[j].Removed? {
      assert head[|lc| + j] == Conflict(p);
    } else if j :| 0 <= j < |rc| && rc[j].path == p {
      assert rc[j] == Removed(p);
    } else if p in ProcessedPaths(head) {
      var k :| 0 <= k < |head| && !head[k].Conflict? && head[k].path == p;
      assert k < |lc| && lc[k].path == p;
    }
  }
}
