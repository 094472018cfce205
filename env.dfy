/** The environment the engine acts on: the two directory trees, the
    control files in the mirror folder and the two message channels.
    It is a value that every operation takes and returns. */
module Env {
  import opened Models

  /** A regular file: its bytes and its modification time. */
  datatype File = File(data: Bytes, modified: Time)

  /** A directory tree, as the files under its root by relative path. */
  type Tree = map<Path, File>

  /** The persisted baseline in the mirror folder. */
  datatype MetaFile = Missing | Unparsable | Stored(data: SyncData)

  datatype Side = LocalSide | RemoteSide

  function Other(s: Side): Side
  {
    if s == LocalSide then RemoteSide else LocalSide
  }

  /** What the engine's receiver yields at successive polls: `None` when
      nothing is waiting at that poll. */
  type Inbox = seq<Option<SyncMessage>>

  /** `local` is the local folder; `remote` is the sync folder inside the
      mirror root; `logFile` holds the lines of the durable log; `outbox`
      is everything sent to the caller; `now` stamps every file written. */
  datatype World = World(
    local: Tree,
    remote: Tree,
    meta: MetaFile,
    logFile: seq<Note>,
    inbox: Inbox,
    outbox: seq<SyncMessage>,
    now: Time)
  {
    function TreeAt(s: Side): Tree
    {
      if s == LocalSide then local else remote
    }

    function WithTree(s: Side, t: Tree): World
    {
      if s == LocalSide then this.(local := t) else this.(remote := t)
    }

    function Send(m: SyncMessage): World
    {
      this.(outbox := outbox + [m])
    }
  }

  function Min(a: nat, b: nat): nat
  {
    if a <= b then a else b
  }

  /** The inbox after one poll. */
  function AfterPoll(s: Inbox): Inbox
  {
    if s == [] then s else s[1..]
  }

  /** Whether one poll (a non-blocking receive) yields Stop. */
  predicate PollIsStop(s: Inbox)
  {
    s != [] && s[0] == Some(Stop)
  }

  /** Index of the first poll that yields Stop, or |s| when none does. */
  function FirstStop(s: Inbox): (r: nat)
    ensures r <= |s|
  {
    if s == [] then 0
    else if s[0] == Some(Stop) then 0
    else 1 + FirstStop(s[1..])
  }

  /** Some poll among the first k yields Stop. */
  predicate StopWithin(s: Inbox, k: nat)
  {
    FirstStop(s) < k && FirstStop(s) < |s|
  }

  /** The inbox after a loop that polls up to k times and returns at the
      first Stop. */
  function AfterPolls(s: Inbox, k: nat): Inbox
  {
    if StopWithin(s, k) then s[FirstStop(s) + 1..] else s[Min(k, |s|)..]
  }

  /** FirstStop is the index of the first Stop. */
  lemma {:induction false} FirstStopIsFirst(s: Inbox)
    ensures FirstStop(s) < |s| ==> s[FirstStop(s)] == Some(Stop)
    ensures forall j :: 0 <= j < FirstStop(s) ==> s[j] != Some(Stop)
  {
    if s != [] && s[0] != Some(Stop) {
      FirstStopIsFirst(s[1..]);
      forall j | 0 <= j < FirstStop(s)
        ensures s[j] != Some(Stop)
      {
        if j > 0 {
          assert s[j] == s[1..][j - 1];
        }
      }
    }
  }

  /** One more poll, at index c, either finds the first Stop or moves the
      bound on FirstStop one further. */
  lemma PollStep(s: Inbox, c: nat)
    requires c < |s| && FirstStop(s) >= c
    ensures s[c] == Some(Stop) ==> FirstStop(s) == c
    ensures s[c] != Some(Stop) ==> FirstStop(s) >= c + 1
  {
    FirstStopIsFirst(s);
  }

  /** Polling one more message extends "a Stop within the first i polls"
      by that message. */
  lemma StopWithinStep(s: Inbox, i: nat)
    ensures StopWithin(s, i + 1) <==> StopWithin(s, i) || (i < |s| && s[i] == Some(Stop))
  {
    FirstStopIsFirst(s);
  }

  lemma {:induction false} FirstStopDrop(s: Inbox, m: nat)
    requires m <= |s| && m <= FirstStop(s)
    ensures FirstStop(s[m..]) == FirstStop(s) - m
  {
    if m > 0 {
      assert s[0] != Some(Stop);
      assert s[1..][m - 1..] == s[m..];
      FirstStopDrop(s[1..], m - 1);
    }
  }

  /** Polling a more times and then b more times, with no Stop among the
      first a polls, is polling a + b times. */
  lemma PollsCompose(s: Inbox, a: nat, b: nat)
    requires !StopWithin(s, a)
    ensures StopWithin(AfterPolls(s, a), b) <==> StopWithin(s, a + b)
    ensures AfterPolls(AfterPolls(s, a), b) == AfterPolls(s, a + b)
  {
    var m := Min(a, |s|);
    FirstStopDrop(s, m);
    assert AfterPolls(s, a) == s[m..];
  }

  lemma StopWithinMonotone(s: Inbox, a: nat, b: nat)
    requires a <= b && StopWithin(s, a)
    ensures StopWithin(s, b) && AfterPolls(s, a) == AfterPolls(s, b)
  {
  }

  /** Poll number i of a loop that polls up to n times: a Stop there ends
      the loop with the inbox as AfterPolls leaves it after n polls;
      anything else moves the loop one poll further. */
  lemma PollAt(inbox: Inbox, i: nat, n: nat, rest: Inbox)
    requires i < n && !StopWithin(inbox, i) && rest == inbox[Min(i, |inbox|)..]
    ensures PollIsStop(rest) ==> StopWithin(inbox, n) && AfterPoll(rest) == AfterPolls(inbox, n)
    ensures !PollIsStop(rest) ==> !StopWithin(inbox, i + 1) && AfterPoll(rest) == inbox[Min(i + 1, |inbox|)..]
  {
    StopWithinStep(inbox, i);
    if PollIsStop(rest) {
      assert inbox[i] == Some(Stop);
      FirstStopIsFirst(inbox);
    }
  }

  /** Poll number i of a loop that polls on every round, whatever it saw
      before: the flag "a Stop was seen" grows by this poll's answer. */
  lemma PollNext(inbox: Inbox, i: nat, rest: Inbox)
    requires rest == inbox[Min(i, |inbox|)..]
    ensures StopWithin(inbox, i + 1) <==> StopWithin(inbox, i) || PollIsStop(rest)
    ensures AfterPoll(rest) == inbox[Min(i + 1, |inbox|)..]
  {
    StopWithinStep(inbox, i);
  }

  /** No poll of `s` yields Stop. */
  predicate NoStop(s: Inbox)
  {
    forall j :: 0 <= j < |s| ==> s[j] != Some(Stop)
  }

  /** Without a Stop in the inbox, no number of polls sees one. */
  lemma NoStopNeverStops(s: Inbox, k: nat)
    requires NoStop(s)
    ensures !StopWithin(s, k)
  {
    FirstStopIsFirst(s);
  }

  /** What is left of a Stop-free inbox is Stop-free. */
  lemma NoStopSuffix(s: Inbox, k: nat)
    requires NoStop(s) && k <= |s|
    ensures NoStop(s[k..])
  {
    forall j | 0 <= j < |s[k..]| ensures s[k..][j] != Some(Stop)
    {
      assert s[k..][j] == s[k + j];
    }
  }

  lemma NoStopAfterPolls(s: Inbox, k: nat)
    requires NoStop(s)
    ensures NoStop(AfterPolls(s, k))
  {
    NoStopNeverStops(s, k);
    NoStopSuffix(s, Min(k, |s|));
  }
}
