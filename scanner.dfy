/** The tree scanner: turns the file entries of a directory walk into a
    snapshot keyed by path relative to the scanned root, reusing the
    baseline's hash for files whose modification time and size are
    unchanged, and yielding no snapshot at all once a stop was seen. */
module Scanner {
  import opened Models
  import opened Env
  import Hasher

  /** File metadata: the modification time (None: the platform could not
      report it) and the size in bytes. */
  datatype Stat = Stat(modified: Option<Time>, size: nat)

  /** A file as the directory walk yields it: its full path, its metadata
      (None: unreadable) and its bytes (None: it cannot be opened or read). */
  datatype Entry = Entry(path: Path, stat: Option<Stat>, content: Option<Bytes>)

  /** `p` with the leading `base` components removed, if it starts with them. */
  function StripPrefix(p: Path, base: Path): (r: Option<Path>)
    ensures r.Some? <==> |base| <= |p| && p[..|base|] == base
    ensures r.Some? ==> base + r.value == p
  {
    if |base| <= |p| && p[..|base|] == base then Some(p[|base|..]) else None
  }

  /** The baseline's hash may be reused: its record for the same relative
      path has the same modification time and the same size. */
  predicate CacheHit(last: SyncData, rel: Path, modified: Time, size: nat)
  {
    rel in last.files && last.files[rel].modified == modified && last.files[rel].size == size
  }

  /** The scanner's rule for one entry once no stop has been seen: the
      relative path and record it contributes, or None when it is dropped. */
  function ScanEntry(base: Path, e: Entry, last: SyncData, digest: Bytes -> Hash)
    : (r: Option<(Path, FileInfo)>)
    ensures r.None? <==>
      || IsControlFile(e.path)
      || StripPrefix(e.path, base).None?
      || e.stat.None? || e.stat.value.modified.None?
      || (!CacheHit(last, StripPrefix(e.path, base).value, e.stat.value.modified.value, e.stat.value.size)
          && e.content.None?)
    ensures r.Some? ==>
      var (key, info) := r.value;
      && base + key == e.path
      && info.path == key
      && e.stat == Some(Stat(Some(info.modified), info.size))
      && (CacheHit(last, key, info.modified, info.size) ==> info.hash == last.files[key].hash)
      && (!CacheHit(last, key, info.modified, info.size) ==>
            e.content.Some? && info.hash == digest(e.content.value))
  {
    if IsControlFile(e.path) then None
    else match StripPrefix(e.path, base)
      case None => None
      case Some(rel) =>
        if e.stat.None? || e.stat.value.modified.None? then None
        else
          var modified, size := e.stat.value.modified.value, e.stat.value.size;
          if CacheHit(last, rel, modified, size) then
            Some((rel, FileInfo(rel, last.files[rel].hash, modified, size)))
          else if e.content.None? then None
          else Some((rel, FileInfo(rel, digest(e.content.value), modified, size)))
  }

  /** The snapshot made of the entries' contributions, later entries
      replacing earlier ones with the same key. */
  function Collect(base: Path, entries: seq<Entry>, last: SyncData, digest: Bytes -> Hash)
    : map<Path, FileInfo>
  {
    if entries == [] then map[]
    else
      var m := Collect(base, entries[..|entries| - 1], last, digest);
      match ScanEntry(base, entries[|entries| - 1], last, digest)
      case None => m
      case Some((key, info)) => m[key := info]
  }

  /** The per-entry closure: the rule above, hashing through the streaming
      hasher. The scan is modelled sequentially, so the stop flag is still
      down whenever an entry gets this far. */
  method ScanOne(base: Path, e: Entry, last: SyncData, digest: Bytes -> Hash)
    returns (r: Option<(Path, FileInfo)>)
    ensures r == ScanEntry(base, e, last, digest)
  {
    if IsControlFile(e.path) {
      return None;
    }
    var rel := StripPrefix(e.path, base);
    if rel.None? || e.stat.None? || e.stat.value.modified.None? {
      return None;
    }
    var modified, size := e.stat.value.modified.value, e.stat.value.size;
    var hash: Hash;
    if CacheHit(last, rel.value, modified, size) {
      hash := last.files[rel.value].hash;
    } else {
      if e.content.None? {
        return None;
      }
      var h := Hasher.CalculateHash(e.content.value, None, digest);
      hash := h.value;
    }
    r := Some((rel.value, FileInfo(rel.value, hash, modified, size)));
  }

  /** The per-entry results of the parallel part, in walk order, when no
      stop is seen. */
  function Gathered(base: Path, entries: seq<Entry>, last: SyncData, digest: Bytes -> Hash)
    : (r: seq<Option<(Path, FileInfo)>>)
    ensures |r| == |entries|
  {
    if entries == [] then []
    else Gathered(base, entries[..|entries| - 1], last, digest) + [ScanEntry(base, entries[|entries| - 1], last, digest)]
  }

  lemma GatheredExtend(base: Path, entries: seq<Entry>, last: SyncData, digest: Bytes -> Hash, i: nat)
    requires i < |entries|
    ensures Gathered(base, entries[..i + 1], last, digest) ==
      Gathered(base, entries[..i], last, digest) + [ScanEntry(base, entries[i], last, digest)]
  {
    assert entries[..i + 1][..i] == entries[..i];
  }

  lemma {:induction false} GatheredAt(base: Path, entries: seq<Entry>, last: SyncData, digest: Bytes -> Hash, j: nat)
    requires j < |entries|
    ensures Gathered(base, entries, last, digest)[j] == ScanEntry(base, entries[j], last, digest)
  {
    if j < |entries| - 1 {
      GatheredAt(base, entries[..|entries| - 1], last, digest, j);
    }
  }

  /** One entry of the parallel part with the stop flag down: its result
      is appended to those of the entries before it. */
  method ScanNext(base: Path, entries: seq<Entry>, last: SyncData, digest: Bytes -> Hash,
                  i: nat, results: seq<Option<(Path, FileInfo)>>)
    returns (results': seq<Option<(Path, FileInfo)>>)
    requires i < |entries| && results == Gathered(base, entries[..i], last, digest)
    ensures results' == Gathered(base, entries[..i + 1], last, digest)
  {
    var result := ScanOne(base, entries[i], last, digest);
    GatheredExtend(base, entries, last, digest, i);
    results' := results + [result];
  }

  /** Scans the walk's file entries. Every entry first polls the inbox once
      and raises the stop flag on Stop; entries seen with the flag raised
      contribute nothing, and a raised flag yields no snapshot at all. */
  method ScanDirectory(base: Path, entries: seq<Entry>, last: SyncData,
                       digest: Bytes -> Hash, inbox: Inbox)
    returns (r: Option<SyncData>, rest: Inbox)
    ensures rest == inbox[Min(|entries|, |inbox|)..]
    ensures r.None? <==> StopWithin(inbox, |entries|)
    ensures r.Some? ==> r.value == SyncData(Collect(base, entries, last, digest))
  {
    var stopFlag, results;
    stopFlag, results, rest := ScanEntries(base, entries, last, digest, inbox);
    if stopFlag {
      return None, rest;
    }
    var files := CollectResults(base, entries, last, digest, results);
    r := Some(SyncData(files));
  }

  /** The parallel part of the scan: one poll and, while the stop flag is
      down, one result per entry. */
  method ScanEntries(base: Path, entries: seq<Entry>, last: SyncData,
                     digest: Bytes -> Hash, inbox: Inbox)
    returns (stopFlag: bool, results: seq<Option<(Path, FileInfo)>>, rest: Inbox)
    ensures rest == inbox[Min(|entries|, |inbox|)..]
    ensures stopFlag <==> StopWithin(inbox, |entries|)
    ensures !stopFlag ==> results == Gathered(base, entries, last, digest)
  {
    stopFlag := false;
    results := [];
    rest := inbox;
    var i := 0;
    while i < |entries|
      invariant 0 <= i <= |entries|
      invariant rest == inbox[Min(i, |inbox|)..]
      invariant stopFlag <==> StopWithin(inbox, i)
      invariant !stopFlag ==> results == Gathered(base, entries[..i], last, digest)
    {
      PollNext(inbox, i, rest);
      if PollIsStop(rest) {
        stopFlag := true;
      }
      rest := AfterPoll(rest);
      if !stopFlag {
        results := ScanNext(base, entries, last, digest, i, results);
      } else {
        results := results + [None];
      }
      i := i + 1;
    }
    assert entries[..i] == entries;
  }

  /** The collection loop after the parallel part: inserts the kept
      entries' records in walk order. */
  method CollectResults(base: Path, entries: seq<Entry>, last: SyncData, digest: Bytes -> Hash,
                        results: seq<Option<(Path, FileInfo)>>)
    returns (files: map<Path, FileInfo>)
    requires results == Gathered(base, entries, last, digest)
    ensures files == Collect(base, entries, last, digest)
  {
    files := map[];
    var j := 0;
    while j < |results|
      invariant 0 <= j <= |results|
      invariant files == Collect(base, entries[..j], last, digest)
    {
      assert entries[..j + 1][..j] == entries[..j];
      GatheredAt(base, entries, last, digest, j);
      if results[j].Some? {
        files := files[results[j].value.0 := results[j].value.1];
      }
      j := j + 1;
    }
    assert entries[..|entries|] == entries;
  }

  /** Every record of a scan comes from one entry of the walk, through the
      per-entry rule. */
  lemma {:induction false} RecordsComeFromEntries(base: Path, entries: seq<Entry>, last: SyncData,
                                                  digest: Bytes -> Hash)
    ensures forall key :: key in Collect(base, entries, last, digest) ==>
      exists i :: 0 <= i < |entries| &&
        ScanEntry(base, entries[i], last, digest) == Some((key, Collect(base, entries, last, digest)[key]))
  {
    if entries != [] {
      var init := entries[..|entries| - 1];
      RecordsComeFromEntries(base, init, last, digest);
      var m := Collect(base, entries, last, digest);
      forall key | key in m
        ensures exists i :: 0 <= i < |entries| && ScanEntry(base, entries[i], last, digest) == Some((key, m[key]))
      {
        var r := ScanEntry(base, entries[|entries| - 1], last, digest);
        if r.Some? && r.value.0 == key {
          assert ScanEntry(base, entries[|entries| - 1], last, digest) == Some((key, m[key]));
        } else {
          var mi := Collect(base, init, last, digest);
          assert key in mi && m[key] == mi[key];
          assert exists i :: 0 <= i < |init| && ScanEntry(base, init[i], last, digest) == Some((key, mi[key]));
          var i :| 0 <= i < |init| && ScanEntry(base, init[i], last, digest) == Some((key, mi[key]));
          assert entries[i] == init[i];
        }
      }
    }
  }

  /** What the scanner promises of each record: it is keyed by its own
      path, that path is a walked file's path with the root stripped, the
      file is not one of the control files, and its hash is the baseline's
      when modification time and size match and a fresh digest of the
      file's bytes otherwise. */
  lemma ScanRecords(base: Path, entries: seq<Entry>, last: SyncData, digest: Bytes -> Hash)
    ensures var m := Collect(base, entries, last, digest);
      forall key :: key in m ==>
        && m[key].path == key
        && !IsControlFile(base + key)
        && (CacheHit(last, key, m[key].modified, m[key].size) ==> m[key].hash == last.files[key].hash)
        && (!CacheHit(last, key, m[key].modified, m[key].size) ==>
              exists i :: 0 <= i < |entries| && entries[i].path == base + key
                && entries[i].content.Some? && m[key].hash == digest(entries[i].content.value))
  {
    RecordsComeFromEntries(base, entries, last, digest);
  }

  /** When the walk lists each path once, every entry the rule keeps is in
      the scan, with exactly the record the rule gives it. */
  lemma {:induction false} ScanKeepsEveryKeptEntry(base: Path, entries: seq<Entry>, last: SyncData,
                                                   digest: Bytes -> Hash)
    requires forall i, j :: 0 <= i < j < |entries| ==> entries[i].path != entries[j].path
    ensures var m := Collect(base, entries, last, digest);
      forall i :: 0 <= i < |entries| && ScanEntry(base, entries[i], last, digest).Some? ==>
        var (key, info) := ScanEntry(base, entries[i], last, digest).value;
        key in m && m[key] == info
  {
    if entries != [] {
      var n := |entries| - 1;
      var init := entries[..n];
      ScanKeepsEveryKeptEntry(base, init, last, digest);
      var m := Collect(base, entries, last, digest);
      forall i | 0 <= i < |entries| && ScanEntry(base, entries[i], last, digest).Some?
        ensures var (key, info) := ScanEntry(base, entries[i], last, digest).value;
          key in m && m[key] == info
      {
        if i < n {
          assert entries[i] == init[i];
          var key := ScanEntry(base, entries[i], last, digest).value.0;
          var r := ScanEntry(base, entries[n], last, digest);
          if r.Some? {
            assert base + r.value.0 == entries[n].path != entries[i].path == base + key;
          }
        }
      }
    }
  }

  /** A scan never records a control file, whatever the walk lists. */
  lemma ControlFilesNeverScanned(base: Path, entries: seq<Entry>, last: SyncData,
                                 digest: Bytes -> Hash, key: Path)
    requires IsControlFile(base + key)
    ensures key !in Collect(base, entries, last, digest)
  {
    ScanRecords(base, entries, last, digest);
  }
}
