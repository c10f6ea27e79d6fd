/** The feed poller: it reads its stored poll state, fetches the feed
    conditionally on the stored ETag, keeps the events of interest that come
    before the first already-seen id, sends them to the queue in batches of
    ten, and only then replaces the stored poll state.

    The HTTP fetch is an input (`Fetch`); the state table and the queue are
    the fields of class `Poller`. */
module EventPoller {
  import opened GitHubEvents

  const BatchSize: nat := 10
  /** How many ids of the fetched batch the new poll state remembers. */
  const SeenIdsCap: nat := 100
  const DefaultPollInterval: int := 60
  const EntryIdPrefix: string := "github_"

  /** The stored poll-state record. */
  datatype PollState = PollState(
    etag: Option<string>,
    lastSeenIds: seq<string>,
    pollInterval: int,
    lastPoll: Option<string>,
    updatedAt: Option<string>)

  /** The answer of the conditional fetch: 304, or 200 with the events
      (newest first), the new ETag and the suggested interval, or an HTTP or
      transport error. */
  datatype Fetch =
    | NotModified
    | Fetched(events: seq<RawEvent>, etag: Option<string>, pollInterval: int)
    | FetchFailed

  /** One message of a batch send: its id, its body, and the three routing
      attributes. */
  datatype Entry = Entry(id: string, body: RawEvent, eventType: string, repoName: string, actorLogin: string)

  datatype PollResponse =
    | Cached                                              // 200, "No new events"
    | Polled(totalEvents: nat, newEvents: nat, nextPollIn: int)  // 200
    | Raised                                              // the invocation fails

  /** The state used when no record is stored or the read fails. */
  const DefaultPollState: PollState := PollState(None, [], DefaultPollInterval, None, None)

  // ----- new-event extraction -----

  /** The index of the first event whose id was already seen, or the length
      of the batch when there is none. */
  function Boundary(events: seq<RawEvent>, seen: seq<string>): (b: nat)
    ensures b <= |events|
    ensures forall j :: 0 <= j < b ==> events[j].id !in seen
    ensures b < |events| ==> events[b].id in seen
  {
    if events == [] then 0
    else if events[0].id in seen then 0
    else 1 + Boundary(events[1..], seen)
  }

  /** The events whose type is of interest, in order. */
  function Interesting(events: seq<RawEvent>): seq<RawEvent> {
    if events == [] then []
    else
      var last := events[|events| - 1];
      Interesting(events[..|events| - 1]) + (if last.eventType in InterestedEvents then [last] else [])
  }

  /** The new events of a fetched batch. */
  function NewEvents(events: seq<RawEvent>, seen: seq<string>): seq<RawEvent> {
    Interesting(events[..Boundary(events, seen)])
  }

  /** Scans the batch newest first, stops at the first seen id and keeps the
      events of interest before it. */
  method FilterNewEvents(events: seq<RawEvent>, seen: seq<string>) returns (newEvents: seq<RawEvent>)
    ensures newEvents == Interesting(events[..Boundary(events, seen)])
  {
    newEvents := [];
    var i := 0;
    while i < |events|
      invariant 0 <= i <= |events|
      invariant forall j :: 0 <= j < i ==> events[j].id !in seen
      invariant newEvents == Interesting(events[..i])
    {
      var event := events[i];
      if event.id in seen {
        break;
      }
      assert events[..i + 1][..i] == events[..i];
      if event.eventType in InterestedEvents {
        newEvents := newEvents + [event];
      }
      i := i + 1;
    }
    assert Boundary(events, seen) == i;
  }

  /** Every kept event is of interest and comes from the batch, and every
      event of interest in the batch is kept. */
  lemma {:induction false} InterestingIsFilter(events: seq<RawEvent>)
    ensures forall e :: e in Interesting(events) ==> e in events && e.eventType in InterestedEvents
    ensures forall e :: e in events && e.eventType in InterestedEvents ==> e in Interesting(events)
    ensures |Interesting(events)| <= |events|
  {
    if events != [] {
      var init := events[..|events| - 1];
      InterestingIsFilter(init);
      assert events == init + [events[|events| - 1]];
    }
  }

  /** No returned event has an id in the seen list, and every returned event
      is of interest. */
  lemma NewEventsAreUnseenAndInteresting(events: seq<RawEvent>, seen: seq<string>)
    ensures forall e :: e in NewEvents(events, seen) ==> e.id !in seen && e.eventType in InterestedEvents
  {
    var b := Boundary(events, seen);
    InterestingIsFilter(events[..b]);
    forall e | e in NewEvents(events, seen) ensures e.id !in seen {
      var j :| 0 <= j < b && events[..b][j] == e;
    }
  }

  /** With nothing seen, the whole batch is filtered by category. */
  lemma {:induction false} NothingSeenKeepsAllInteresting(events: seq<RawEvent>)
    ensures NewEvents(events, []) == Interesting(events)
  {
    assert events[..|events|] == events;
  }

  /** When the newest event was already seen, nothing is new. */
  lemma FirstSeenMeansNothingNew(events: seq<RawEvent>, seen: seq<string>)
    requires |events| > 0 && events[0].id in seen
    ensures NewEvents(events, seen) == []
  {
  }

  /** When a fresh head sits on top of a batch whose newest id was seen, the
      new events are exactly the interesting part of the head. */
  lemma {:induction false} FreshHeadIsNew(head: seq<RawEvent>, tail: seq<RawEvent>, seen: seq<string>)
    requires forall e :: e in head ==> e.id !in seen
    requires |tail| > 0 && tail[0].id in seen
    ensures NewEvents(head + tail, seen) == Interesting(head)
  {
    var events := head + tail;
    forall j | 0 <= j < |head| ensures events[j].id !in seen {
      assert events[j] == head[j];
    }
    assert events[|head|] == tail[0];
    assert Boundary(events, seen) == |head|;
    assert events[..|head|] == head;
  }

  // ----- dispatch -----

  /** The queue entry of an event: id `github_<id>`, the event as body, and
      the routing attributes, names defaulting to "unknown". */
  function EntryFor(e: RawEvent): (entry: Entry)
    ensures entry.id == EntryIdPrefix + e.id && entry.body == e && entry.eventType == e.eventType
    ensures entry.repoName == (if e.repoName.Some? then e.repoName.value else Unknown)
    ensures entry.actorLogin == (if e.actorLogin.Some? then e.actorLogin.value else Unknown)
  {
    Entry(EntryIdPrefix + e.id, e, e.eventType, e.repoName.GetOr(Unknown), e.actorLogin.GetOr(Unknown))
  }

  /** The entries of a batch, one per event, in order. */
  function EntriesFor(events: seq<RawEvent>): (entries: seq<Entry>)
    ensures |entries| == |events|
  {
    seq(|events|, i requires 0 <= i < |events| => EntryFor(events[i]))
  }

  /** Consecutive batches of at most ten; there are ceil(n/10) of them. */
  function Chunks<T>(s: seq<T>): (chunks: seq<seq<T>>)
    ensures |chunks| == (|s| + BatchSize - 1) / BatchSize
  {
    if s == [] then []
    else if |s| <= BatchSize then [s]
    else [s[..BatchSize]] + Chunks(s[BatchSize..])
  }

  function Flatten<T>(ss: seq<seq<T>>): seq<T> {
    if ss == [] then [] else ss[0] + Flatten(ss[1..])
  }

  /** The batches put back together give the input, and each batch holds
      between one and ten elements. */
  lemma {:induction false} ChunksPartition<T>(s: seq<T>)
    ensures Flatten(Chunks(s)) == s
    ensures forall c :: c in Chunks(s) ==> 0 < |c| <= BatchSize
  {
    if |s| > BatchSize {
      ChunksPartition(s[BatchSize..]);
      assert s == s[..BatchSize] + s[BatchSize..];
    }
  }

  /** Batch `b` is the `b`-th run of ten elements, the last one possibly shorter. */
  lemma {:induction false} ChunkAt<T>(s: seq<T>, b: nat)
    requires b * BatchSize < |s|
    ensures b < |Chunks(s)|
    ensures Chunks(s)[b] == s[b * BatchSize .. if (b + 1) * BatchSize <= |s| then (b + 1) * BatchSize else |s|]
  {
    if b > 0 {
      var t := s[BatchSize..];
      ChunkAt(t, b - 1);
      assert Chunks(s) == [s[..BatchSize]] + Chunks(t);
      var lo := (b - 1) * BatchSize;
      var hi := if b * BatchSize <= |t| then b * BatchSize else |t|;
      assert t[lo..hi] == s[lo + BatchSize..hi + BatchSize];
    } else if |s| <= BatchSize {
      assert s[0..|s|] == s;
    }
  }

  /** The entries of a slice are the slice of the entries. */
  lemma EntriesForSlice(events: seq<RawEvent>, i: nat, j: nat)
    requires i <= j <= |events|
    ensures EntriesFor(events[i..j]) == EntriesFor(events)[i..j]
  {
    assert forall k :: 0 <= k < j - i ==> EntriesFor(events[i..j])[k] == EntriesFor(events)[i..j][k];
  }

  /** The batch that starts at the `b`-th multiple of ten holds the entries
      of the events up to `end`, and is the last one when `end` is the end. */
  lemma NextBatchIs(events: seq<RawEvent>, b: nat, end: nat)
    requires b * BatchSize < |events|
    requires end == if b * BatchSize + BatchSize <= |events| then b * BatchSize + BatchSize else |events|
    ensures var batches := Chunks(EntriesFor(events));
      && b < |batches|
      && batches[..b + 1] == batches[..b] + [EntriesFor(events[b * BatchSize..end])]
      && (end == |events| ==> |batches| == b + 1)
  {
    ChunkAt(EntriesFor(events), b);
    EntriesForSlice(events, b * BatchSize, end);
    if end == |events| {
      BatchCountAt(|events|, b + 1);
    }
  }

  /** How many batches a send gets through: all of them, or those before the
      one the queue rejects. */
  function SentCount(n: nat, failAt: Option<nat>): nat {
    if failAt.Some? && failAt.value < n then failAt.value else n
  }

  /** The last batch ends the send: `b` batches cover the events exactly
      when the last of them starts before the end. */
  lemma BatchCountAt(n: nat, b: nat)
    requires (b - 1) * BatchSize < n <= b * BatchSize
    ensures (n + BatchSize - 1) / BatchSize == b
  {
  }

  /** Appends the entries of one batch in order. */
  method BuildEntries(batch: seq<RawEvent>) returns (entries: seq<Entry>)
    ensures entries == EntriesFor(batch)
  {
    entries := [];
    for idx := 0 to |batch|
      invariant entries == EntriesFor(batch[..idx])
    {
      entries := entries + [EntryFor(batch[idx])];
      assert entries == EntriesFor(batch[..idx + 1]) by {
        assert forall k :: 0 <= k < idx + 1 ==> entries[k] == EntriesFor(batch[..idx + 1])[k];
      }
    }
    assert batch[..|batch|] == batch;
  }

  // ----- the stored state and the queue -----

  class Poller {
    /** The record in the state table, if any. */
    var pollState: Option<PollState>
    /** Every batch the queue has accepted, in order. */
    var queue: seq<seq<Entry>>

    constructor (stored: Option<PollState>)
      ensures pollState == stored && queue == []
    {
      pollState := stored;
      queue := [];
    }

    /** The stored state, or the default when there is none or the read fails. */
    method GetPollState(readFails: bool) returns (state: PollState)
      ensures state == (if readFails || pollState.None? then DefaultPollState else pollState.value)
      ensures readFails || pollState.None? ==>
        state.etag.None? && state.lastSeenIds == [] && state.pollInterval == 60
    {
      if readFails || pollState.None? {
        return DefaultPollState;
      }
      return pollState.value;
    }

    /** Sends the events in consecutive batches of ten; the queue rejecting
        batch `failAt` stops the send, and the batches before it stay sent. */
    method SendEventsToSqs(events: seq<RawEvent>, failAt: Option<nat>) returns (ok: bool)
      modifies this`queue
      ensures ok <==> SentCount(|Chunks(events)|, failAt) == |Chunks(events)|
      ensures queue == old(queue) + Chunks(EntriesFor(events))[..SentCount(|Chunks(events)|, failAt)]
    {
      ghost var before := queue;
      ghost var batches := Chunks(EntriesFor(events));
      var i := 0;
      var sent := 0;
      while i < |events|
        invariant 0 <= i <= |events| && sent <= |batches|
        invariant i < |events| ==> i == sent * BatchSize
        invariant i == |events| ==> sent == |batches|
        invariant queue == before + batches[..sent]
        invariant failAt.Some? ==> failAt.value >= sent
        decreases |events| - i
      {
        var end := if i + BatchSize <= |events| then i + BatchSize else |events|;
        NextBatchIs(events, sent, end);
        if failAt == Some(sent) {
          return false;
        }
        var batch := events[i..end];
        var entries := BuildEntries(batch);
        queue := queue + [entries];
        i := end;
        sent := sent + 1;
      }
      return true;
    }

    /** One polling invocation. A 304 or a failed fetch writes nothing. With
        new events, they are sent first; the poll state is replaced only after
        every batch was sent, and then remembers the ids of the first hundred
        events of the whole fetched batch. */
    method HandlePoll(readFails: bool, fetch: Fetch, failAt: Option<nat>, writeFails: bool, now: string)
      returns (resp: PollResponse)
      modifies this
      ensures fetch.NotModified? ==> resp == Cached && pollState == old(pollState) && queue == old(queue)
      ensures fetch.FetchFailed? ==> resp == Raised && pollState == old(pollState) && queue == old(queue)
      ensures fetch.Fetched? ==>
        var state := if readFails || old(pollState).None? then DefaultPollState else old(pollState).value;
        var newOnes := NewEvents(fetch.events, state.lastSeenIds);
        var sent := SentCount(|Chunks(newOnes)|, failAt);
        var sentAll := sent == |Chunks(newOnes)|;
        && queue == old(queue) + Chunks(EntriesFor(newOnes))[..sent]
        && (newOnes == [] || !sentAll || writeFails ==> pollState == old(pollState))
        && (newOnes != [] && sentAll && !writeFails ==>
              pollState == Some(NextPollState(fetch.events, fetch.etag, fetch.pollInterval, now)))
        && (resp == Polled(|fetch.events|, |newOnes|, fetch.pollInterval) <==> newOnes == [] || (sentAll && !writeFails))
        && (resp != Polled(|fetch.events|, |newOnes|, fetch.pollInterval) ==> resp == Raised)
    {
      var state := GetPollState(readFails);
      if fetch.NotModified? {
        return Cached;
      }
      if fetch.FetchFailed? {
        return Raised;
      }
      var newOnes := FilterNewEvents(fetch.events, state.lastSeenIds);
      if newOnes != [] {
        var ok := SendEventsToSqs(newOnes, failAt);
        if !ok {
          return Raised;
        }
        if writeFails {
          return Raised;
        }
        pollState := Some(NextPollState(fetch.events, fetch.etag, fetch.pollInterval, now));
      } else {
        assert SentCount(|Chunks(newOnes)|, failAt) == 0;
      }
      return Polled(|fetch.events|, |newOnes|, fetch.pollInterval);
    }
  }

  /** The poll state written after a successful dispatch. */
  function NextPollState(events: seq<RawEvent>, etag: Option<string>, interval: int, now: string): (s: PollState)
    ensures |s.lastSeenIds| == if |events| < SeenIdsCap then |events| else SeenIdsCap
    ensures forall i :: 0 <= i < |s.lastSeenIds| ==> s.lastSeenIds[i] == events[i].id
    ensures s.etag == etag && s.pollInterval == interval && s.lastPoll == Some(now) && s.updatedAt == Some(now)
  {
    var n := if |events| < SeenIdsCap then |events| else SeenIdsCap;
    PollState(etag, IdsOf(events[..n]), interval, Some(now), Some(now))
  }

  function IdsOf(events: seq<RawEvent>): (ids: seq<string>)
    ensures |ids| == |events| && forall i :: 0 <= i < |events| ==> ids[i] == events[i].id
  {
    if events == [] then [] else [events[0].id] + IdsOf(events[1..])
  }

  /** Re-polling the same non-empty batch after the state was written sends
      nothing: its newest id is remembered. */
  lemma RepollSendsNothing(events: seq<RawEvent>, etag: Option<string>, interval: int, now: string)
    requires |events| > 0
    ensures NewEvents(events, NextPollState(events, etag, interval, now).lastSeenIds) == []
  {
    var seen := NextPollState(events, etag, interval, now).lastSeenIds;
    assert seen[0] == events[0].id;
    FirstSeenMeansNothingNew(events, seen);
  }

  /** A later batch made of newOnes events on top of the previous batch sends
      exactly the interesting newOnes events. */
  lemma NextPollSendsOnlyFresh(previous: seq<RawEvent>, head: seq<RawEvent>, etag: Option<string>, interval: int, now: string)
    requires |previous| > 0
    requires forall e :: e in head ==> e.id !in NextPollState(previous, etag, interval, now).lastSeenIds
    ensures NewEvents(head + previous, NextPollState(previous, etag, interval, now).lastSeenIds) == Interesting(head)
  {
    var seen := NextPollState(previous, etag, interval, now).lastSeenIds;
    assert seen[0] == previous[0].id;
    FreshHeadIsNew(head, previous, seen);
  }
}
