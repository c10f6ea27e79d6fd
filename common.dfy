/** Types shared by the poller, the processor and the query handlers: the
    optional/fallible wrappers, the three event categories of interest and
    the fields of a GitHub feed event that the pipeline reads. */
module GitHubEvents {

  datatype Option<+T> = None | Some(value: T) {
    /** The wrapped value, or `default` when absent (Python's `dict.get(k, default)`). */
    function GetOr(default: T): T {
      match this
      case Some(v) => v
      case None => default
    }
  }

  datatype Result<+R, +E> = Success(value: R) | Failure(error: E)

  const WatchEvent: string := "WatchEvent"
  const PullRequestEvent: string := "PullRequestEvent"
  const IssuesEvent: string := "IssuesEvent"

  /** The placeholder stored when a repository or actor name is missing. */
  const Unknown: string := "unknown"

  /** The event types the query handlers count, in the order they list them. */
  const EventTypes: seq<string> := [WatchEvent, PullRequestEvent, IssuesEvent]

  /** The event types the poller forwards. */
  const InterestedEvents: set<string> := {WatchEvent, PullRequestEvent, IssuesEvent}

  /** A feed event as the poller receives it and the processor parses it back
      from a queue message. `id` and `type` are required keys (reading them
      raises when absent, which callers model as a malformed body); every other
      field is read with a default and is therefore optional. */
  datatype RawEvent = RawEvent(
    id: string,
    eventType: string,
    repoName: Option<string>,
    repoId: Option<int>,
    actorLogin: Option<string>,
    action: Option<string>,
    createdAt: Option<string>)

  /** An integer query-string parameter as `int(params.get(name, default))`
      sees it: absent, not an integer, or its value. */
  datatype IntParam = Absent | NotAnInteger | IntValue(value: int)

  /** Value of a lookup in a count map, 0 when the key is absent. */
  function CountOf(m: map<string, nat>, k: string): nat {
    if k in m then m[k] else 0
  }

  /** Sum of the counts of `types` in `m`: `sum(m.values())` when the keys of
      `m` are exactly the distinct elements of `types`. */
  function SumOver(m: map<string, nat>, types: seq<string>): nat {
    if types == [] then 0 else CountOf(m, types[0]) + SumOver(m, types[1..])
  }
}
