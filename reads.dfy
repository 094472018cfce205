/** Counting for a loop that reads a file in fixed-size chunks and checks
    for a stop request before every read, including the final empty one. */
module Reads {

  /** Number of non-empty reads needed for n bytes, at most c at a time. */
  function Chunks(n: nat, c: nat): nat
    requires c > 0
  {
    if n == 0 then 0 else if n <= c then 1 else 1 + Chunks(n - c, c)
  }

  /** Number of stop checks such a loop makes on a file of n bytes: one
      before each non-empty read and one before the final empty read. */
  function ReadChecks(n: nat, c: nat): nat
    requires c > 0
  {
    Chunks(n, c) + 1
  }
}
