/** The copy engine for large files: copies one file between the two trees
    in 64 KB chunks, checking for Stop before every read, and removes the
    partly written destination when stopped. */
module Copier {
  import opened Models
  import opened Env
  import opened Reads

  const COPY_CHUNK: nat := 65536

  /** The effect of a chunked copy of `p` into the tree at `to` from the
      other tree: Err when the source is missing; otherwise `Ok(true)` when
      one of the copy's polls yields Stop, with the destination removed, and
      `Ok(false)` with the destination holding exactly the source's bytes. */
  function LargeCopy(w: World, to: Side, p: Path): (Result<bool>, World)
  {
    var src := w.TreeAt(Other(to));
    if p !in src then (Err(MissingFile(p)), w)
    else
      var data := src[p].data;
      var checks := ReadChecks(|data|, COPY_CHUNK);
      var w' := w.(inbox := AfterPolls(w.inbox, checks));
      if StopWithin(w.inbox, checks) then (Ok(true), w'.WithTree(to, w.TreeAt(to) - {p}))
      else (Ok(false), w'.WithTree(to, w.TreeAt(to)[p := File(data, w.now)]))
  }

  /** One non-empty read of n bytes at offset `copied`: the bytes written
      grow by the next n bytes of the source, and one read fewer remains. */
  lemma ChunkStep(source: Bytes, copied: nat, n: nat)
    requires copied <= |source| && n > 0
    requires n == if |source| - copied <= COPY_CHUNK then |source| - copied else COPY_CHUNK
    ensures copied + n <= |source|
    ensures source[..copied] + source[copied..copied + n] == source[..copied + n]
    ensures Chunks(|source| - copied, COPY_CHUNK) == 1 + Chunks(|source| - (copied + n), COPY_CHUNK)
  {
  }

  /** The read/write loop: polls before every read, including the final
      empty one, and stops at the first Stop. The bytes written so far are
      always a prefix of the source. */
  method CopyChunks(source: Bytes, inbox: Inbox) returns (stopped: bool, dest: Bytes, rest: Inbox)
    ensures stopped <==> StopWithin(inbox, ReadChecks(|source|, COPY_CHUNK))
    ensures rest == AfterPolls(inbox, ReadChecks(|source|, COPY_CHUNK))
    ensures !stopped ==> dest == source
  {
    dest, rest := [], inbox;
    var copied: nat := 0;
    ghost var checks: nat := 0;
    while true
      invariant copied <= |source| && dest == source[..copied]
      invariant checks + Chunks(|source| - copied, COPY_CHUNK) == Chunks(|source|, COPY_CHUNK)
      invariant !StopWithin(inbox, checks)
      invariant rest == inbox[Min(checks, |inbox|)..]
      decreases |source| - copied
    {
      PollAt(inbox, checks, ReadChecks(|source|, COPY_CHUNK), rest);
      if PollIsStop(rest) {
        return true, dest, AfterPoll(rest);
      }
      rest := AfterPoll(rest);
      var n := if |source| - copied <= COPY_CHUNK then |source| - copied else COPY_CHUNK;
      checks := checks + 1;
      if n == 0 {
        break;
      }
      ChunkStep(source, copied, n);
      dest := dest + source[copied..copied + n];
      copied := copied + n;
    }
    assert dest == source;
    stopped := false;
  }

  method CopyLargeFile(w: World, to: Side, p: Path) returns (res: Result<bool>, w': World)
    ensures (res, w') == LargeCopy(w, to, p)
    ensures p !in w.TreeAt(Other(to)) ==> res.Err? && w' == w
    ensures p in w.TreeAt(Other(to)) ==>
      && res.Ok?
      && (res.value <==> StopWithin(w.inbox, ReadChecks(|w.TreeAt(Other(to))[p].data|, COPY_CHUNK)))
      && (!res.value ==> w'.TreeAt(to) == w.TreeAt(to)[p := File(w.TreeAt(Other(to))[p].data, w.now)])
      && (res.value ==> w'.TreeAt(to) == w.TreeAt(to) - {p})
    ensures w'.TreeAt(Other(to)) == w.TreeAt(Other(to))
    ensures w'.outbox == w.outbox && w'.logFile == w.logFile && w'.meta == w.meta
  {
    var src := w.TreeAt(Other(to));
    if p !in src {
      return Err(MissingFile(p)), w;
    }
    // The destination is created (or truncated) before the first read.
    var target := w.TreeAt(to)[p := File([], w.now)];
    var stopped, dest, rest := CopyChunks(src[p].data, w.inbox);
    if stopped {
      // Clean up the partly written destination.
      target := target - {p};
      assert target == w.TreeAt(to) - {p};
    } else {
      target := target[p := File(dest, w.now)];
      assert target == w.TreeAt(to)[p := File(src[p].data, w.now)];
    }
    res, w' := Ok(stopped), w.(inbox := rest).WithTree(to, target);
  }
}
