/** The streaming content hasher: reads a file in 8 KB chunks, feeding
    each chunk to the digest, and checks the scan's stop flag before every
    read. The digest function itself (SHA-256 rendered in hex) is a
    parameter. */
module Hasher {
  import opened Models
  import opened Reads

  const HASH_CHUNK: nat := 8192

  /** `raisedAt` is the index of the first stop check that sees the stop
      flag raised (None: the flag stays down). The result is unset exactly
      when that check happens before the last read; otherwise it is the
      digest of all the file's bytes in order. */
  method CalculateHash(content: Bytes, raisedAt: Option<nat>, digest: Bytes -> Hash)
    returns (r: Option<Hash>)
    ensures r.None? <==> raisedAt.Some? && raisedAt.value < ReadChecks(|content|, HASH_CHUNK)
    ensures r.Some? ==> r.value == digest(content)
  {
    var pos: nat := 0;
    var checks: nat := 0;
    var fed: Bytes := [];
    while true
      invariant pos <= |content| && fed == content[..pos]
      invariant checks + Chunks(|content| - pos, HASH_CHUNK) == Chunks(|content|, HASH_CHUNK)
      invariant raisedAt.Some? ==> raisedAt.value >= checks
      decreases |content| - pos
    {
      if raisedAt.Some? && raisedAt.value <= checks {
        return None;
      }
      var n := if |content| - pos <= HASH_CHUNK then |content| - pos else HASH_CHUNK;
      if n == 0 {
        break;
      }
      fed := fed + content[pos..pos + n];
      pos := pos + n;
      checks := checks + 1;
    }
    assert fed == content;
    r := Some(digest(fed));
  }
}
