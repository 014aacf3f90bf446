/** Window membership and the contiguous-run scan that both entities use
    to slide their windows over their flag arrays. Sequence numbers are plain
    counters that also serve as array indices: nothing is reduced modulo
    SEQSPACE. */
module Slots {
  import opened Packets

  /** `n` lies in the window of WINDOWSIZE numbers that starts at `start`. */
  predicate InWindow(n: int, start: int)
  {
    start <= n < start + WINDOWSIZE
  }

  /** The first index at or after `from` and below `limit` whose flag is
      clear, or `limit` when every flag in between is set: where a scan that
      steps over set flags one by one comes to rest. */
  function RunEnd(flags: seq<bool>, from: int, limit: int): (k: int)
    requires 0 <= from <= limit <= |flags|
    ensures from <= k <= limit
    ensures forall i :: from <= i < k ==> flags[i]
    ensures k == limit || !flags[k]
    decreases limit - from
  {
    if from < limit && flags[from] then RunEnd(flags, from + 1, limit) else from
  }
}
