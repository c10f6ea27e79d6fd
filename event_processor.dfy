/** The queue consumer: it normalises each feed event into a small record,
    writes it to the processed-events table only if its key is absent, and on
    a first insert of an opened pull request adds 1 to the repository's
    counter in the summary table.

    The two tables are the fields of class `EventProcessor`; the pure
    functions `StoreStep` and `ApplyBatch` say what one store call and one
    batch do to them, and the lemmas prove idempotence and counter
    exactness about those functions. */
module EventProcessor {
  import opened GitHubEvents

  /** The one category-specific field a processed record carries. */
  datatype Extra = PrAction(prAction: Option<string>) | Action(action: Option<string>) | NoExtra

  /** The normalised record built from a feed event. */
  datatype ProcessedEvent = ProcessedEvent(
    id: string,
    eventType: string,
    repoName: string,
    repoId: Option<int>,
    actorLogin: string,
    createdAt: Option<string>,
    processedAt: string,
    extra: Extra)

  /** The processed-events table is keyed by the pair (pk, created_at). */
  datatype EventKey = EventKey(pk: string, createdAt: string)

  /** A row of the processed-events table. */
  datatype Item = Item(
    pk: string,
    createdAt: string,
    eventType: string,
    repoName: string,
    actorLogin: string,
    processedAt: string,
    id: string,
    extra: Extra)

  /** Both tables: processed events, and opened-PR counters per repository. */
  datatype Store = Store(events: map<EventKey, Item>, counters: map<string, nat>)

  /** Failures of the store that the code does not decide itself: a failed
      conditional put (other than the condition failing), a failed counter update. */
  datatype StoreFaults = StoreFaults(putFails: bool, counterFails: bool)

  /** Why a record was not processed: its body did not parse or lacked `id` or
      `type`; it has no `created_at`, so the table rejects the item for lacking
      its sort key; or the put itself failed. */
  datatype Failure = Malformed | MissingSortKey | PutFailed

  /** One queue record: the parsed body (None when the body is not JSON or lacks
      `id` or `type`), the clock reading used for `processed_at`, and the
      store's behaviour for this record. */
  datatype Delivery = Delivery(body: Option<RawEvent>, processedAt: string, faults: StoreFaults)

  datatype StoreOutcome = StoreOutcome(store: Store, result: Result<bool, Failure>)

  datatype BatchResponse = BatchResponse(statusCode: int, processed: nat, failed: nat)

  const KeyPrefix: string := "event#"

  // ----- normalisation -----

  /** The category-specific field: `pr_action` for pull requests, `action` for
      issues and watches, nothing for any other type. */
  function TypeSpecificFields(raw: RawEvent): (x: Extra)
    ensures x.PrAction? <==> raw.eventType == PullRequestEvent
    ensures x.Action? <==> raw.eventType in {IssuesEvent, WatchEvent}
    ensures x.NoExtra? <==> raw.eventType !in InterestedEvents
    ensures x.PrAction? ==> x.prAction == raw.action
    ensures x.Action? ==> x.action == raw.action
  {
    if raw.eventType == PullRequestEvent then PrAction(raw.action)
    else if raw.eventType == IssuesEvent then Action(raw.action)
    else if raw.eventType == WatchEvent then Action(raw.action)
    else NoExtra
  }

  /** The normalised record of a feed event. */
  function Normalise(raw: RawEvent, processedAt: string): (p: ProcessedEvent)
    ensures p.id == raw.id && p.eventType == raw.eventType && p.createdAt == raw.createdAt
    ensures p.repoName == (if raw.repoName.Some? then raw.repoName.value else Unknown)
    ensures p.actorLogin == (if raw.actorLogin.Some? then raw.actorLogin.value else Unknown)
    ensures p.repoId == raw.repoId && p.processedAt == processedAt
    ensures p.extra == TypeSpecificFields(raw)
  {
    ProcessedEvent(raw.id, raw.eventType, raw.repoName.GetOr(Unknown), raw.repoId,
                   raw.actorLogin.GetOr(Unknown), raw.createdAt, processedAt,
                   TypeSpecificFields(raw))
  }

  // ----- the store protocol -----

  function KeyOf(p: ProcessedEvent, createdAt: string): EventKey {
    EventKey(KeyPrefix + p.id, createdAt)
  }

  function ItemOf(p: ProcessedEvent, createdAt: string): Item {
    Item(KeyPrefix + p.id, createdAt, p.eventType, p.repoName, p.actorLogin,
         p.processedAt, p.id, p.extra)
  }

  /** Whether a first insert of `p` adds to the counter of its repository. */
  predicate IsOpenedPr(p: ProcessedEvent) {
    p.eventType == PullRequestEvent && p.extra == PrAction(Some("opened"))
  }

  predicate IsOpenedItem(item: Item, repo: string) {
    item.eventType == PullRequestEvent && item.extra == PrAction(Some("opened")) && item.repoName == repo
  }

  /** The counter of a repository; a repository without a counter reads as 0
      (an `ADD` to an absent attribute starts from 0). */
  function CounterOf(counters: map<string, nat>, repo: string): nat {
    if repo in counters then counters[repo] else 0
  }

  /** What one call of the store function does to the two tables, and what it
      returns: true for a first insert, false for a duplicate key. */
  function StoreStep(s: Store, p: ProcessedEvent, f: StoreFaults): (o: StoreOutcome)
    // a row once written is never overwritten or removed
    ensures forall k :: k in s.events ==> k in o.store.events && o.store.events[k] == s.events[k]
    // success with true means exactly one new row, the record's own
    ensures o.result == Success(true) <==>
      p.createdAt.Some? && !f.putFails && KeyOf(p, p.createdAt.value) !in s.events
    ensures o.result == Success(true) ==>
      o.store.events == s.events[KeyOf(p, p.createdAt.value) := ItemOf(p, p.createdAt.value)]
    // a duplicate or a failure changes nothing
    ensures o.result != Success(true) ==> o.store == s
    ensures o.result == Success(false) <==>
      p.createdAt.Some? && !f.putFails && KeyOf(p, p.createdAt.value) in s.events
    ensures o.result == Failure(MissingSortKey) <==> p.createdAt.None?
    // the counter moves by exactly one, and only for a first insert of an opened PR
    ensures forall repo ::
      (CounterOf(o.store.counters, repo) ==
       CounterOf(s.counters, repo) +
       (if o.result == Success(true) && IsOpenedPr(p) && !f.counterFails && repo == p.repoName then 1 else 0))
  {
    if p.createdAt.None? then StoreOutcome(s, Failure(MissingSortKey))
    else if f.putFails then StoreOutcome(s, Failure(PutFailed))
    else
      var key := KeyOf(p, p.createdAt.value);
      if key in s.events then StoreOutcome(s, Success(false))
      else
        var events := s.events[key := ItemOf(p, p.createdAt.value)];
        var counters :=
          if IsOpenedPr(p) && !f.counterFails
          then s.counters[p.repoName := CounterOf(s.counters, p.repoName) + 1]
          else s.counters;
        StoreOutcome(Store(events, counters), Success(true))
  }

  /** What one queue record does: parse failure, or normalise then store. */
  function ProcessRecord(s: Store, d: Delivery): StoreOutcome {
    if d.body.None? then StoreOutcome(s, Failure(Malformed))
    else StoreStep(s, Normalise(d.body.value, d.processedAt), d.faults)
  }

  /** The tables after the records of a batch, processed in order. */
  function ApplyBatch(s: Store, records: seq<Delivery>): Store {
    if records == [] then s
    else ProcessRecord(ApplyBatch(s, records[..|records| - 1]), records[|records| - 1]).store
  }

  /** How many records of a batch are reported as processed. */
  function SucceededCount(s: Store, records: seq<Delivery>): nat {
    if records == [] then 0
    else
      var init := records[..|records| - 1];
      SucceededCount(s, init) +
      (if ProcessRecord(ApplyBatch(s, init), records[|records| - 1]).result.Success? then 1 else 0)
  }

  // ----- counter exactness -----

  /** The rows that a repository's counter counts: opened pull requests. */
  ghost function OpenedKeys(events: map<EventKey, Item>, repo: string): set<EventKey> {
    set k | k in events && IsOpenedItem(events[k], repo)
  }

  /** No counter exceeds the number of opened-PR rows of its repository. */
  ghost predicate CountersBounded(s: Store) {
    forall repo :: CounterOf(s.counters, repo) <= |OpenedKeys(s.events, repo)|
  }

  /** Every counter equals the number of opened-PR rows of its repository. */
  ghost predicate CountersExact(s: Store) {
    forall repo :: CounterOf(s.counters, repo) == |OpenedKeys(s.events, repo)|
  }

  /** Inserting a new key adds it to the opened rows of the repository it
      counts for, and to no other. */
  lemma OpenedKeysInsert(s: Store, p: ProcessedEvent, c: string, repo: string)
    requires KeyOf(p, c) !in s.events
    ensures |OpenedKeys(s.events[KeyOf(p, c) := ItemOf(p, c)], repo)| ==
      |OpenedKeys(s.events, repo)| + (if IsOpenedPr(p) && repo == p.repoName then 1 else 0)
  {
    var k := KeyOf(p, c);
    OpenedKeysInsertSet(s.events, k, ItemOf(p, c), repo);
    assert IsOpenedItem(ItemOf(p, c), repo) <==> IsOpenedPr(p) && repo == p.repoName;
  }

  /** Adding a row under a fresh key adds that key to the opened-PR rows of a
      repository exactly when the row is an opened PR of it. */
  lemma OpenedKeysInsertSet(events: map<EventKey, Item>, k: EventKey, item: Item, repo: string)
    requires k !in events
    ensures OpenedKeys(events[k := item], repo) ==
      OpenedKeys(events, repo) + (if IsOpenedItem(item, repo) then {k} else {})
  {
    var after := OpenedKeys(events[k := item], repo);
    var before := OpenedKeys(events, repo);
    forall j ensures j in after <==> j in before + (if IsOpenedItem(item, repo) then {k} else {}) {
      if j != k && j in events {
        assert events[k := item][j] == events[j];
      }
    }
  }

  /** A store call keeps every counter at most its row count, even when the
      counter update fails. */
  lemma StoreStepKeepsBounded(s: Store, p: ProcessedEvent, f: StoreFaults)
    requires CountersBounded(s)
    ensures CountersBounded(StoreStep(s, p, f).store)
  {
    var o := StoreStep(s, p, f);
    if o.result == Success(true) {
      forall repo ensures CounterOf(o.store.counters, repo) <= |OpenedKeys(o.store.events, repo)| {
        OpenedKeysInsert(s, p, p.createdAt.value, repo);
      }
    }
  }

  /** When the counter update does not fail, a store call keeps every counter
      exact: duplicates never increment it, first inserts of opened PRs
      increment it by one. */
  lemma StoreStepKeepsExact(s: Store, p: ProcessedEvent, f: StoreFaults)
    requires CountersExact(s) && !f.counterFails
    ensures CountersExact(StoreStep(s, p, f).store)
  {
    var o := StoreStep(s, p, f);
    if o.result == Success(true) {
      forall repo ensures CounterOf(o.store.counters, repo) == |OpenedKeys(o.store.events, repo)| {
        OpenedKeysInsert(s, p, p.createdAt.value, repo);
      }
    }
  }

  ghost predicate NoCounterFaults(records: seq<Delivery>) {
    forall i :: 0 <= i < |records| ==> !records[i].faults.counterFails
  }

  /** A batch without counter failures keeps every counter exact. */
  lemma {:induction false} BatchKeepsExact(s: Store, records: seq<Delivery>)
    requires CountersExact(s) && NoCounterFaults(records)
    ensures CountersExact(ApplyBatch(s, records))
  {
    if records != [] {
      var init := records[..|records| - 1];
      var d := records[|records| - 1];
      BatchKeepsExact(s, init);
      if d.body.Some? {
        StoreStepKeepsExact(ApplyBatch(s, init), Normalise(d.body.value, d.processedAt), d.faults);
      }
    }
  }

  /** Any batch keeps every counter at most its row count. */
  lemma {:induction false} BatchKeepsBounded(s: Store, records: seq<Delivery>)
    requires CountersBounded(s)
    ensures CountersBounded(ApplyBatch(s, records))
  {
    if records != [] {
      var init := records[..|records| - 1];
      var d := records[|records| - 1];
      BatchKeepsBounded(s, init);
      if d.body.Some? {
        StoreStepKeepsBounded(ApplyBatch(s, init), Normalise(d.body.value, d.processedAt), d.faults);
      }
    }
  }

  // ----- idempotence -----

  /** Storing the same record a second time, once the first stored it, returns
      false and changes neither table, whatever the counter does. */
  lemma StoreTwiceIsStoreOnce(s: Store, p: ProcessedEvent, f: StoreFaults, g: StoreFaults)
    requires StoreStep(s, p, f).result.Success? && !g.putFails
    ensures StoreStep(StoreStep(s, p, f).store, p, g) == StoreOutcome(StoreStep(s, p, f).store, Success(false))
  {
  }

  /** Processing an event twice leaves both tables exactly as processing it
      once, even when the second delivery carries a later clock reading. */
  lemma ProcessTwiceIsProcessOnce(s: Store, raw: RawEvent, t1: string, t2: string, f: StoreFaults, g: StoreFaults)
    requires !f.putFails
    ensures var once := ProcessRecord(s, Delivery(Some(raw), t1, f)).store;
      ProcessRecord(once, Delivery(Some(raw), t2, g)).store == once
  {
    var p1 := Normalise(raw, t1);
    var p2 := Normalise(raw, t2);
    assert KeyOf(p1, "") == KeyOf(p2, "");
  }

  /** The key a delivery writes, when it has one. */
  ghost predicate Stored(s: Store, d: Delivery) {
    d.body.Some? && d.body.value.createdAt.Some? ==>
      KeyOf(Normalise(d.body.value, d.processedAt), d.body.value.createdAt.value) in s.events
  }

  ghost predicate NoPutFaults(records: seq<Delivery>) {
    forall i :: 0 <= i < |records| ==> !records[i].faults.putFails
  }

  /** After a batch without put failures every record's key is in the table. */
  lemma {:induction false} BatchStoresAll(s: Store, records: seq<Delivery>)
    requires NoPutFaults(records)
    ensures forall i :: 0 <= i < |records| ==> Stored(ApplyBatch(s, records), records[i])
  {
    if records != [] {
      var init := records[..|records| - 1];
      BatchStoresAll(s, init);
      forall i | 0 <= i < |records| ensures Stored(ApplyBatch(s, records), records[i]) {
        if i < |init| {
          assert records[i] == init[i];
          assert Stored(ApplyBatch(s, init), init[i]);
        }
      }
    }
  }

  /** Records whose keys are all present change nothing. */
  lemma {:induction false} StoredRecordsAreNoOps(s: Store, records: seq<Delivery>)
    requires forall i :: 0 <= i < |records| ==> Stored(s, records[i])
    requires NoPutFaults(records)
    ensures ApplyBatch(s, records) == s
  {
    if records != [] {
      var init := records[..|records| - 1];
      StoredRecordsAreNoOps(s, init);
      assert Stored(s, records[|records| - 1]);
    }
  }

  /** Redelivering a whole batch that was processed without put failures
      changes neither table: at-least-once delivery is safe. */
  lemma BatchReplayIsNoOp(s: Store, records: seq<Delivery>)
    requires NoPutFaults(records)
    ensures ApplyBatch(ApplyBatch(s, records), records) == ApplyBatch(s, records)
  {
    BatchStoresAll(s, records);
    StoredRecordsAreNoOps(ApplyBatch(s, records), records);
  }

  /** The repository scenario of the summary-table test: pr-42, a duplicate of
      pr-42, then pr-43 leave the counter at 2. */
  lemma OpenedTwiceWithDuplicate(t: string)
    ensures
      var faults := StoreFaults(false, false);
      var pr42 := RawEvent("pr-42", PullRequestEvent, Some("octocat/hello-world"), None, Some("tester"),
                           Some("opened"), Some("2025-08-23T12:00:00Z"));
      var pr43 := RawEvent("pr-43", PullRequestEvent, Some("octocat/hello-world"), None, Some("tester"),
                           Some("opened"), Some("2025-08-23T12:05:00Z"));
      var batch := [Delivery(Some(pr42), t, faults), Delivery(Some(pr42), t, faults), Delivery(Some(pr43), t, faults)];
      CounterOf(ApplyBatch(Store(map[], map[]), batch).counters, "octocat/hello-world") == 2
  {
    var faults := StoreFaults(false, false);
    var pr42 := RawEvent("pr-42", PullRequestEvent, Some("octocat/hello-world"), None, Some("tester"),
                         Some("opened"), Some("2025-08-23T12:00:00Z"));
    var pr43 := RawEvent("pr-43", PullRequestEvent, Some("octocat/hello-world"), None, Some("tester"),
                         Some("opened"), Some("2025-08-23T12:05:00Z"));
    var d42 := Delivery(Some(pr42), t, faults);
    var d43 := Delivery(Some(pr43), t, faults);
    var batch := [d42, d42, d43];
    assert batch[..2] == [d42, d42] && [d42, d42][..1] == [d42] && [d42][..0] == [];
    var k42 := KeyOf(Normalise(pr42, t), "2025-08-23T12:00:00Z");
    var k43 := KeyOf(Normalise(pr43, t), "2025-08-23T12:05:00Z");
    assert k42 != k43 by { assert k42.createdAt != k43.createdAt; }
    var s0 := Store(map[], map[]);
    assert ApplyBatch(s0, [d42][..0]) == s0;
    var s1 := ApplyBatch(s0, [d42]);
    assert s1 == ProcessRecord(s0, d42).store;
    assert k42 in s1.events && CounterOf(s1.counters, "octocat/hello-world") == 1;
    var s2 := ApplyBatch(Store(map[], map[]), [d42, d42]);
    assert s2 == ProcessRecord(s1, d42).store == s1;
    var s3 := ApplyBatch(Store(map[], map[]), batch);
    assert s3 == ProcessRecord(s2, d43).store;
    assert k43 !in s2.events;
  }

  // ----- the tables as mutable state -----

  class EventProcessor {
    var events: map<EventKey, Item>
    var counters: map<string, nat>

    function State(): Store
      reads this
    {
      Store(events, counters)
    }

    /** Counters never exceed the rows they count. */
    ghost predicate Valid()
      reads this
    {
      CountersBounded(State())
    }

    constructor ()
      ensures State() == Store(map[], map[]) && Valid()
    {
      events := map[];
      counters := map[];
      assert forall repo :: OpenedKeys(map[], repo) == {};
    }

    /** Conditional put of the record's row, then the counter update on a first
        insert of an opened pull request. */
    method StoreProcessedEvent(p: ProcessedEvent, f: StoreFaults) returns (r: Result<bool, Failure>)
      requires Valid()
      modifies this
      ensures Valid()
      ensures StoreOutcome(State(), r) == StoreStep(old(State()), p, f)
    {
      if p.createdAt.None? {
        return Failure(MissingSortKey);
      }
      if f.putFails {
        return Failure(PutFailed);
      }
      var key := KeyOf(p, p.createdAt.value);
      if key in events {
        return Success(false);
      }
      StoreStepKeepsBounded(State(), p, f);
      events := events[key := ItemOf(p, p.createdAt.value)];
      if IsOpenedPr(p) && !f.counterFails {
        counters := counters[p.repoName := CounterOf(counters, p.repoName) + 1];
      }
      return Success(true);
    }

    /** Normalises one event and stores it; the store's true/false answer is
        not passed on, so a duplicate is processed like a first insert. */
    method ProcessGitHubEvent(raw: RawEvent, processedAt: string, f: StoreFaults)
      returns (r: Result<ProcessedEvent, Failure>)
      requires Valid()
      modifies this
      ensures Valid()
      ensures State() == StoreStep(old(State()), Normalise(raw, processedAt), f).store
      ensures r.Success? <==> StoreStep(old(State()), Normalise(raw, processedAt), f).result.Success?
      ensures r.Success? ==> r.value == Normalise(raw, processedAt)
    {
      var p := Normalise(raw, processedAt);
      var stored := StoreProcessedEvent(p, f);
      if stored.Failure? {
        return Failure(stored.error);
      }
      return Success(p);
    }

    /** Processes every record independently; a failing record is counted and
        the rest go on. The status is always 200. */
    method HandleBatch(records: seq<Delivery>) returns (resp: BatchResponse)
      requires Valid()
      modifies this
      ensures Valid()
      ensures State() == ApplyBatch(old(State()), records)
      ensures resp.statusCode == 200
      ensures resp.processed + resp.failed == |records|
      ensures resp.processed == SucceededCount(old(State()), records)
    {
      ghost var s0 := State();
      var processed, failed := 0, 0;
      for i := 0 to |records|
        invariant Valid()
        invariant State() == ApplyBatch(s0, records[..i])
        invariant processed + failed == i
        invariant processed == SucceededCount(s0, records[..i])
      {
        assert records[..i + 1][..i] == records[..i];
        var d := records[i];
        if d.body.None? {
          failed := failed + 1;
        } else {
          var r := ProcessGitHubEvent(d.body.value, d.processedAt, d.faults);
          if r.Success? {
            processed := processed + 1;
          } else {
            failed := failed + 1;
          }
        }
      }
      assert records[..|records|] == records;
      return BatchResponse(200, processed, failed);
    }
  }
}
