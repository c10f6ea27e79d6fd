/** The processed-events table as the query handlers see it through its
    secondary index: one (event type, created_at) entry per row, created_at
    as integer seconds. A count query returns how many entries of one type lie
    in a time range. */
module EventIndex {

  datatype IndexEntry = IndexEntry(eventType: string, createdAt: int)

  /** Entries of type `t` created at or after `lo` (a `>=` key condition). */
  function CountSince(index: seq<IndexEntry>, t: string, lo: int): nat {
    if index == [] then 0
    else CountSince(index[1..], t, lo) + (if index[0].eventType == t && lo <= index[0].createdAt then 1 else 0)
  }

  /** Entries of type `t` created between `lo` and `hi`, both ends included
      (a `BETWEEN` key condition). */
  function CountBetween(index: seq<IndexEntry>, t: string, lo: int, hi: int): nat {
    if index == [] then 0
    else
      var e := index[0];
      CountBetween(index[1..], t, lo, hi) + (if e.eventType == t && lo <= e.createdAt <= hi then 1 else 0)
  }

  /** Two adjacent closed ranges that share the endpoint `mid` count the
      entries at `mid` twice: their sum is the count of the joined range plus
      the count at `mid`. */
  lemma {:induction false} AdjacentRangesShareEndpoint(index: seq<IndexEntry>, t: string, lo: int, mid: int, hi: int)
    requires lo <= mid <= hi
    ensures CountBetween(index, t, lo, mid) + CountBetween(index, t, mid, hi) ==
            CountBetween(index, t, lo, hi) + CountBetween(index, t, mid, mid)
  {
    if index != [] {
      AdjacentRangesShareEndpoint(index[1..], t, lo, mid, hi);
    }
  }
}
