/** The statistics endpoints: the average time between opened pull requests
    of one repository, the list of repositories with enough opened pull
    requests, and the event counts per type over a trailing window.

    The store is given as values: the pull-request rows of the processed-
    events table in index order, the summary table's counters, and the
    secondary index for count queries; store failures are inputs. */
module StatisticsApi {
  import opened GitHubEvents
  import opened Sorting
  import opened EventIndex
  import EventProcessor

  const MaxOwnerLength: nat := 39
  const MaxRepoLength: nat := 100
  const DefaultOffsetMinutes: nat := 10
  /** Repositories are listed when their opened-PR counter exceeds this. */
  const ListingMinCount: nat := 2

  // ----- repository-name validation -----

  predicate IsAsciiAlnum(c: char) {
    'a' <= c <= 'z' || 'A' <= c <= 'Z' || '0' <= c <= '9'
  }

  predicate IsNameChar(c: char) {
    IsAsciiAlnum(c) || c == '.' || c == '_' || c == '-'
  }

  /** The whole of `p` matches `[a-zA-Z0-9]([a-zA-Z0-9._-])*[a-zA-Z0-9]|[a-zA-Z0-9]`:
      an alphanumeric first and last character, name characters between. */
  predicate MatchesPartPattern(p: string) {
    |p| >= 1 && IsAsciiAlnum(p[0]) && IsAsciiAlnum(p[|p| - 1]) &&
    forall i :: 0 < i < |p| - 1 ==> IsNameChar(p[i])
  }

  /** What `re.match` with that pattern anchored by `^...$` accepts: with
      `lenientEnd`, as in Python, where `$` also matches just before a final
      newline, so a part followed by one "\n" is accepted too; without it,
      whole parts only. */
  predicate PartMatches(p: string, lenientEnd: bool) {
    MatchesPartPattern(p) ||
    (lenientEnd && |p| >= 2 && p[|p| - 1] == '\n' && MatchesPartPattern(p[..|p| - 1]))
  }

  predicate ContainsDotDot(s: string) {
    exists i :: 0 <= i < |s| - 1 && s[i] == '.' && s[i + 1] == '.'
  }

  /** Python's `str.split(sep)`: the pieces between separators, empty pieces kept. */
  function Split(s: string, sep: char): (parts: seq<string>)
    ensures |parts| >= 1
  {
    if s == [] then [""]
    else
      var rest := Split(s[1..], sep);
      if s[0] == sep then [""] + rest else [[s[0]] + rest[0]] + rest[1..]
  }

  function Join(parts: seq<string>, sep: char): string
    requires |parts| >= 1
  {
    if |parts| == 1 then parts[0] else parts[0] + [sep] + Join(parts[1..], sep)
  }

  /** Joining the pieces with the separator gives back the string. */
  lemma {:induction false} SplitJoin(s: string, sep: char)
    ensures Join(Split(s, sep), sep) == s
  {
    if s != [] {
      var rest := Split(s[1..], sep);
      SplitJoin(s[1..], sep);
      assert s == [s[0]] + s[1..];
      if s[0] == sep {
        assert ([""] + rest)[1..] == rest;
      } else {
        var parts := [[s[0]] + rest[0]] + rest[1..];
        assert parts[0] == [s[0]] + rest[0];
        if |rest| > 1 {
          assert parts[1..] == rest[1..];
          assert Join(rest, sep) == rest[0] + [sep] + Join(rest[1..], sep);
          assert Join(parts, sep) == parts[0] + [sep] + Join(parts[1..], sep);
        }
      }
    }
  }

  /** No piece holds the separator. */
  lemma {:induction false} SplitPiecesHaveNoSeparator(s: string, sep: char)
    ensures forall i :: 0 <= i < |Split(s, sep)| ==> sep !in Split(s, sep)[i]
  {
    if s != [] {
      var rest := Split(s[1..], sep);
      SplitPiecesHaveNoSeparator(s[1..], sep);
      if s[0] != sep {
        var parts := Split(s, sep);
        assert parts == [[s[0]] + rest[0]] + rest[1..];
        forall i | 0 <= i < |parts| ensures sep !in parts[i] {
          if i == 0 {
            assert sep !in rest[0];
          } else {
            assert parts[i] == rest[i];
          }
        }
      }
    }
  }

  /** A string with exactly one separator at `k` splits into the text before
      and the text after it. */
  lemma {:induction false} SplitAtOnlySeparator(s: string, sep: char, k: nat)
    requires k < |s| && s[k] == sep && sep !in s[..k] && sep !in s[k + 1..]
    ensures Split(s, sep) == [s[..k], s[k + 1..]]
  {
    if k == 0 {
      NoSeparatorSplit(s[1..], sep);
      assert s[..0] == "";
    } else {
      var t := s[1..];
      assert t[..k - 1] == s[..k][1..];
      assert t[k..] == s[k + 1..];
      assert s[0] == s[..k][0];
      assert s[0] != sep;
      assert sep !in t[..k - 1] by {
        assert forall x :: x in s[..k][1..] ==> x in s[..k];
      }
      SplitAtOnlySeparator(t, sep, k - 1);
      assert [s[0]] + t[..k - 1] == s[..k];
    }
  }

  lemma {:induction false} NoSeparatorSplit(s: string, sep: char)
    requires sep !in s
    ensures Split(s, sep) == [s]
  {
    if s != [] {
      assert s[0] in s;
      assert sep !in s[1..] by {
        forall i | 0 <= i < |s| - 1 ensures s[1..][i] != sep {
          assert s[1..][i] == s[i + 1];
        }
      }
      NoSeparatorSplit(s[1..], sep);
      assert [s[0]] + s[1..] == s;
    }
  }

  /** The validator's checks in the code's order: non-empty, no `..`, no
      leading or trailing slash, exactly two pieces around the slash, each
      matching the name pattern, and the owner and repository length limits. */
  function ValidRepoNameWith(name: string, lenientEnd: bool): bool {
    if name == [] then false
    else if ContainsDotDot(name) || name[0] == '/' || name[|name| - 1] == '/' then false
    else
      var parts := Split(name, '/');
      if |parts| != 2 then false
      else if !PartMatches(parts[0], lenientEnd) || !PartMatches(parts[1], lenientEnd) then false
      else if |parts[0]| > MaxOwnerLength || |parts[1]| > MaxRepoLength then false
      else true
  }

  /** The validator as written, with Python's end-of-string quirk. An
      accepted name is non-empty, holds no `..`, neither starts nor ends with
      a slash, and splits on `/` into an owner of at most 39 and a repository
      of at most 100 characters. */
  function IsValidRepoNameAsWritten(name: string): (ok: bool)
    ensures ok ==> name != [] && !ContainsDotDot(name) && name[0] != '/' && name[|name| - 1] != '/'
    ensures ok ==> var parts := Split(name, '/');
      |parts| == 2 && |parts[0]| <= MaxOwnerLength && |parts[1]| <= MaxRepoLength
  {
    ValidRepoNameWith(name, true)
  }

  /** The validator with the pattern matching whole parts only. It accepts
      no more than the validator as written, and an accepted name holds only
      name characters and slashes. */
  function IsValidRepoName(name: string): (ok: bool)
    ensures ok ==> IsValidRepoNameAsWritten(name)
    ensures ok ==> forall i :: 0 <= i < |name| ==> IsNameChar(name[i]) || name[i] == '/'
  {
    if ValidRepoNameWith(name, false) then
      ValidNameChars(name);
      true
    else false
  }

  /** Every character of a part that matches the pattern is a name character. */
  lemma PatternPartChars(p: string)
    requires MatchesPartPattern(p)
    ensures forall i :: 0 <= i < |p| ==> IsNameChar(p[i])
  {
    forall i | 0 <= i < |p| ensures IsNameChar(p[i]) {
      if i == 0 || i == |p| - 1 {
        assert IsAsciiAlnum(p[i]);
      }
    }
  }

  lemma ValidNameChars(name: string)
    requires ValidRepoNameWith(name, false)
    ensures forall i :: 0 <= i < |name| ==> IsNameChar(name[i]) || name[i] == '/'
  {
    var parts := Split(name, '/');
    SplitJoin(name, '/');
    assert parts[1..] == [parts[1]];
    assert name == parts[0] + ['/'] + parts[1];
    PatternPartChars(parts[0]);
    PatternPartChars(parts[1]);
    forall i | 0 <= i < |name| ensures IsNameChar(name[i]) || name[i] == '/' {
      if i < |parts[0]| {
        assert name[i] == parts[0][i];
      } else if i > |parts[0]| {
        assert name[i] == parts[1][i - |parts[0]| - 1];
      }
    }
  }

  /** The two validators disagree only on names holding a newline: the code
      accepts a part followed by one "\n", the intended validator does not. */
  lemma AsWrittenDiffersOnlyByNewline(name: string)
    ensures IsValidRepoName(name) ==> IsValidRepoNameAsWritten(name)
    ensures IsValidRepoNameAsWritten(name) && !IsValidRepoName(name) ==> '\n' in name
  {
    if IsValidRepoNameAsWritten(name) && !IsValidRepoName(name) {
      var parts := Split(name, '/');
      SplitJoin(name, '/');
      assert parts[1..] == [parts[1]];
      assert name == parts[0] + ['/'] + parts[1];
      if !PartMatches(parts[0], false) {
        assert parts[0][|parts[0]| - 1] == '\n';
        assert name[|parts[0]| - 1] == '\n';
      } else {
        assert !PartMatches(parts[1], false);
        assert parts[1][|parts[1]| - 1] == '\n';
        assert name[|name| - 1] == '\n';
      }
    }
  }

  ghost predicate GoodPart(p: string, maxLength: nat) {
    MatchesPartPattern(p) && |p| <= maxLength
  }

  /** An `owner/repo` name: one slash, an owner of at most 39 and a repository
      of at most 100 characters, each alphanumeric at both ends with only
      letters, digits, `.`, `_` and `-` inside, and no `..` anywhere. */
  ghost predicate WellFormedRepoName(name: string) {
    !ContainsDotDot(name) &&
    exists k :: 0 <= k < |name| && name[k] == '/' &&
      GoodPart(name[..k], MaxOwnerLength) && GoodPart(name[k + 1..], MaxRepoLength)
  }

  lemma GoodPartHasNoSlash(p: string, maxLength: nat)
    requires GoodPart(p, maxLength)
    ensures '/' !in p
  {
    forall i | 0 <= i < |p| ensures p[i] != '/' {
      if i == 0 || i == |p| - 1 {
        assert IsAsciiAlnum(p[i]);
      } else {
        assert IsNameChar(p[i]);
      }
    }
  }

  lemma ValidIsWellFormed(name: string)
    requires IsValidRepoName(name)
    ensures WellFormedRepoName(name)
  {
    var parts := Split(name, '/');
    SplitJoin(name, '/');
    var k := |parts[0]|;
    assert parts[1..] == [parts[1]];
    assert name == parts[0] + ['/'] + parts[1];
    assert name[k] == '/';
    assert name[..k] == parts[0] && name[k + 1..] == parts[1];
  }

  lemma WellFormedIsValid(name: string)
    requires WellFormedRepoName(name)
    ensures IsValidRepoName(name)
  {
    var k :| 0 <= k < |name| && name[k] == '/' &&
      GoodPart(name[..k], MaxOwnerLength) && GoodPart(name[k + 1..], MaxRepoLength);
    GoodPartHasNoSlash(name[..k], MaxOwnerLength);
    GoodPartHasNoSlash(name[k + 1..], MaxRepoLength);
    SplitAtOnlySeparator(name, '/', k);
    assert name[0] == name[..k][0];
    assert name[|name| - 1] == name[k + 1..][|name| - k - 2];
  }

  /** The validator accepts exactly the well-formed `owner/repo` names. */
  lemma ValidRepoNameIff(name: string)
    ensures IsValidRepoName(name) <==> WellFormedRepoName(name)
  {
    if IsValidRepoName(name) {
      ValidIsWellFormed(name);
    }
    if WellFormedRepoName(name) {
      WellFormedIsValid(name);
    }
  }

  /** Two separator-free texts joined by one separator split back into them. */
  lemma SplitAroundSeparator(a: string, b: string, sep: char)
    requires sep !in a && sep !in b
    ensures Split(a + [sep] + b, sep) == [a, b]
  {
    var s := a + [sep] + b;
    assert s[..|a|] == a && s[|a| + 1..] == b;
    SplitAtOnlySeparator(s, sep, |a|);
  }

  lemma OctoRepoShape()
    ensures Split("octo/repo\n", '/') == ["octo", "repo\n"]
    ensures !ContainsDotDot("octo/repo\n")
  {
    var owner, repo := "octo", "repo\n";
    assert '/' !in owner && '/' !in repo;
    SplitAroundSeparator(owner, repo, '/');
    assert owner + ['/'] + repo == "octo/repo\n";
    assert '.' !in "octo/repo\n";
  }

  lemma OctoRepoPartsMatch()
    ensures PartMatches("octo", false)
    ensures PartMatches("repo\n", true)
    ensures !PartMatches("repo\n", false)
  {
    var repo := "repo\n";
    assert repo[..4] == "repo";
    assert MatchesPartPattern("repo");
  }

  /** As written, a trailing newline slips through: "octo/repo\n" is accepted,
      while the intended validator rejects it. */
  lemma TrailingNewlineAccepted()
    ensures IsValidRepoNameAsWritten("octo/repo\n")
    ensures !IsValidRepoName("octo/repo\n")
  {
    OctoRepoShape();
    OctoRepoPartsMatch();
    assert PartMatches("octo", true);
  }

  // ----- average time between pull requests -----

  /** A pull-request row of the processed-events table: its repository, its
      `pr_action`, and its `created_at` in seconds, or None when the stored
      text is not an ISO-8601 timestamp. */
  datatype PrRow = PrRow(repoName: string, prAction: Option<string>, createdAt: Option<int>)

  datatype AverageError = NotEnoughEvents | InvalidTimestamp

  /** The rows whose `pr_action` is "opened", in order. */
  function Opened(rows: seq<PrRow>): (r: seq<PrRow>)
    ensures |r| <= |rows|
  {
    if rows == [] then []
    else
      var last := rows[|rows| - 1];
      Opened(rows[..|rows| - 1]) + (if last.prAction == Some("opened") then [last] else [])
  }

  /** The rows the average is taken over: the opened ones when there are at
      least two, otherwise all of them. */
  function SelectForAverage(rows: seq<PrRow>): seq<PrRow> {
    if |Opened(rows)| < 2 then rows else Opened(rows)
  }

  ghost predicate AllTimestamped(rows: seq<PrRow>) {
    forall i :: 0 <= i < |rows| ==> rows[i].createdAt.Some?
  }

  function Timestamps(rows: seq<PrRow>): (ts: seq<int>)
    requires AllTimestamped(rows)
    ensures |ts| == |rows| && forall i :: 0 <= i < |rows| ==> ts[i] == rows[i].createdAt.value
  {
    if rows == [] then [] else Timestamps(rows[..|rows| - 1]) + [rows[|rows| - 1].createdAt.value]
  }

  function MinOf(s: seq<int>): (m: int)
    requires |s| > 0
    ensures m in s && forall x :: x in s ==> m <= x
  {
    if |s| == 1 then s[0]
    else
      var m := MinOf(s[1..]);
      assert forall x :: x in s ==> x == s[0] || x in s[1..];
      if s[0] <= m then s[0] else m
  }

  function MaxOf(s: seq<int>): (m: int)
    requires |s| > 0
    ensures m in s && forall x :: x in s ==> x <= m
  {
    if |s| == 1 then s[0]
    else
      var m := MaxOf(s[1..]);
      assert forall x :: x in s ==> x == s[0] || x in s[1..];
      if m <= s[0] then s[0] else m
  }

  /** The mean of the gaps between consecutive sorted timestamps, in closed
      form: the spread divided by the number of gaps. */
  function MeanGap(ts: seq<int>): real
    requires |ts| >= 2
  {
    Mean(MaxOf(ts) - MinOf(ts), |ts| - 1)
  }

  /** `total / count` in floating point, here exact. */
  function Mean(total: int, count: nat): real
    requires count > 0
  {
    total as real / count as real
  }

  /** The gaps between consecutive elements. */
  function Gaps(s: seq<int>): (d: seq<int>)
    ensures |d| == if |s| < 2 then 0 else |s| - 1
  {
    if |s| < 2 then [] else Gaps(s[..|s| - 1]) + [s[|s| - 1] - s[|s| - 2]]
  }

  function Sum(s: seq<int>): int {
    if s == [] then 0 else Sum(s[..|s| - 1]) + s[|s| - 1]
  }

  function Id(x: int): int { x }

  /** The gaps of a sequence add up to its last minus its first element. */
  lemma {:induction false} GapsTelescope(s: seq<int>)
    requires |s| >= 1
    ensures Sum(Gaps(s)) == s[|s| - 1] - s[0]
  {
    if |s| >= 2 {
      var init := s[..|s| - 1];
      GapsTelescope(init);
      var g := Gaps(s);
      assert g == Gaps(init) + [s[|s| - 1] - s[|s| - 2]];
      assert g[..|g| - 1] == Gaps(init);
      assert Sum(g) == Sum(Gaps(init)) + (s[|s| - 1] - s[|s| - 2]);
      assert init[|init| - 1] == s[|s| - 2] && init[0] == s[0];
    }
  }

  /** Permutations have the same minimum and maximum. */
  lemma MinMaxOfPermutation(a: seq<int>, b: seq<int>)
    requires |a| > 0 && multiset(a) == multiset(b)
    ensures |b| == |a| && MinOf(a) == MinOf(b) && MaxOf(a) == MaxOf(b)
  {
    assert |a| == |multiset(a)| == |b|;
    var loA, hiA, loB, hiB := MinOf(a), MaxOf(a), MinOf(b), MaxOf(b);
    assert loA in multiset(a) && hiA in multiset(a);
    assert loA in b && hiA in b;
    assert loB in multiset(b) && hiB in multiset(b);
    assert loB in a && hiB in a;
  }

  /** A sorted permutation starts with the minimum and ends with the maximum. */
  lemma SortedEnds(sorted: seq<int>, ts: seq<int>)
    requires |ts| > 0 && SortedBy(sorted, Id) && multiset(sorted) == multiset(ts)
    ensures |sorted| == |ts| && sorted[0] == MinOf(ts) && sorted[|sorted| - 1] == MaxOf(ts)
  {
    MinMaxOfPermutation(ts, sorted);
    var n := |sorted|;
    forall i | 0 <= i < n ensures sorted[0] <= sorted[i] <= sorted[n - 1] {
      if 0 < i {
        assert Id(sorted[0]) <= Id(sorted[i]);
      }
      if i < n - 1 {
        assert Id(sorted[i]) <= Id(sorted[n - 1]);
      }
    }
    assert sorted[0] in sorted && sorted[n - 1] in sorted;
  }

  /** The consecutive gaps of the sorted timestamps add up to their spread. */
  lemma SortedGapsSpread(sorted: seq<int>, ts: seq<int>)
    requires |ts| >= 2 && SortedBy(sorted, Id) && multiset(sorted) == multiset(ts)
    ensures |Gaps(sorted)| == |ts| - 1
    ensures Sum(Gaps(sorted)) == MaxOf(ts) - MinOf(ts)
  {
    SortedEnds(sorted, ts);
    GapsTelescope(sorted);
  }

  lemma MeanOfSpread(total: int, count: nat, ts: seq<int>)
    requires |ts| >= 2 && count == |ts| - 1 && total == MaxOf(ts) - MinOf(ts)
    ensures Mean(total, count) == MeanGap(ts)
  {
  }

  /** The `pr_action == "opened"` filter as a loop. */
  method SelectOpened(rows: seq<PrRow>) returns (selected: seq<PrRow>)
    ensures selected == Opened(rows)
  {
    selected := [];
    for i := 0 to |rows|
      invariant selected == Opened(rows[..i])
    {
      assert rows[..i + 1][..i] == rows[..i];
      if rows[i].prAction == Some("opened") {
        selected := selected + [rows[i]];
      }
    }
    assert rows[..|rows|] == rows;
  }

  /** Parses every row's timestamp, stopping at the first that does not parse. */
  method ParseTimestamps(rows: seq<PrRow>) returns (r: Option<seq<int>>)
    ensures r.Some? <==> AllTimestamped(rows)
    ensures r.Some? ==> r.value == Timestamps(rows)
  {
    var timestamps := [];
    for i := 0 to |rows|
      invariant AllTimestamped(rows[..i])
      invariant timestamps == Timestamps(rows[..i])
    {
      assert rows[..i + 1][..i] == rows[..i];
      if rows[i].createdAt.None? {
        return None;
      }
      timestamps := timestamps + [rows[i].createdAt.value];
    }
    assert rows[..|rows|] == rows;
    return Some(timestamps);
  }

  /** The differences between consecutive elements, as a loop. */
  method ConsecutiveGaps(s: seq<int>) returns (gaps: seq<int>)
    ensures gaps == Gaps(s)
  {
    gaps := [];
    if |s| < 2 {
      return;
    }
    for i := 1 to |s|
      invariant gaps == Gaps(s[..i])
    {
      assert s[..i + 1][..i] == s[..i];
      gaps := gaps + [s[i] - s[i - 1]];
    }
    assert s[..|s|] == s;
  }

  /** Selects the rows, parses and sorts their timestamps, takes the
      consecutive gaps and returns their mean: the spread of the timestamps
      over their number less one. */
  method CalculateAverageTimeBetweenPr(prEvents: seq<PrRow>) returns (r: Result<real, AverageError>)
    ensures var sel := SelectForAverage(prEvents);
      && (|sel| < 2 ==> r == Failure(NotEnoughEvents))
      && (|sel| >= 2 && !AllTimestamped(sel) ==> r == Failure(InvalidTimestamp))
      && (|sel| >= 2 && AllTimestamped(sel) ==> r == Success(MeanGap(Timestamps(sel))))
  {
    var selected := SelectOpened(prEvents);
    if |selected| < 2 {
      selected := prEvents;
    }
    if |selected| < 2 {
      return Failure(NotEnoughEvents);
    }
    var parsed := ParseTimestamps(selected);
    if parsed.None? {
      return Failure(InvalidTimestamp);
    }
    var timestamps := parsed.value;
    var sorted := SortBy(timestamps, Id);
    var gaps := ConsecutiveGaps(sorted);
    assert selected == SelectForAverage(prEvents);
    SortedGapsSpread(sorted, timestamps);
    MeanOfSpread(Sum(gaps), |gaps|, timestamps);
    return Success(Mean(Sum(gaps), |gaps|));
  }

  lemma MeanGapNonNegative(ts: seq<int>)
    requires |ts| >= 2
    ensures MeanGap(ts) >= 0.0
  {
    assert ts[0] in ts;
  }

  /** The average does not depend on the order of the timestamps. */
  lemma MeanGapOrderIndependent(a: seq<int>, b: seq<int>)
    requires |a| >= 2 && multiset(a) == multiset(b)
    ensures |b| >= 2 && MeanGap(a) == MeanGap(b)
  {
    MinMaxOfPermutation(a, b);
  }

  /** 12:00, 12:10 and 12:25 are 600 s and 900 s apart: 750 s on average. */
  lemma MeanGapExample()
    ensures MeanGap([43200, 43800, 44700]) == 750.0
  {
    var ts := [43200, 43800, 44700];
    assert MinOf(ts[2..]) == 44700;
    assert MinOf(ts[1..]) == 43800;
    assert MaxOf(ts[2..]) == 44700;
    assert MaxOf(ts[1..]) == 44700;
  }

  lemma {:induction false} OpenedAreOpened(rows: seq<PrRow>)
    ensures Opened(Opened(rows)) == Opened(rows)
  {
    if rows != [] {
      var init := rows[..|rows| - 1];
      OpenedAreOpened(init);
      var last := rows[|rows| - 1];
      if last.prAction == Some("opened") {
        var o := Opened(rows);
        assert o == Opened(init) + [last];
        assert o[..|o| - 1] == Opened(init);
        assert o[|o| - 1] == last;
        assert Opened(o) == Opened(o[..|o| - 1]) + [last];
      } else {
        assert Opened(rows) == Opened(init);
      }
    }
  }

  /** The handler gives the averager only opened rows, at least two of them,
      so the averager's fall-back to all pull-request rows never applies there. */
  lemma HandlerNeverFallsBack(rows: seq<PrRow>)
    requires |Opened(rows)| >= 2
    ensures SelectForAverage(Opened(rows)) == Opened(rows)
  {
    OpenedAreOpened(rows);
  }

  // ----- repositories with opened pull requests -----

  /** The scan of the summary table: repositories whose counter exceeds `minCount`. */
  function ReposWithOpenedPr(counters: map<string, nat>, minCount: nat): (repos: set<string>)
    ensures forall r :: r in repos <==> EventProcessor.CounterOf(counters, r) > minCount
  {
    set r | r in counters && counters[r] > minCount
  }

  /** With exact counters, a repository is listed exactly when more than two
      opened pull requests of it were stored. */
  lemma ListedIffEnoughOpened(s: EventProcessor.Store, repo: string)
    requires EventProcessor.CountersExact(s)
    ensures repo in ReposWithOpenedPr(s.counters, ListingMinCount) <==>
      |EventProcessor.OpenedKeys(s.events, repo)| > ListingMinCount
  {
  }

  // ----- the pull-request average endpoint -----

  datatype PrAverageResponse =
    | RepositoryList(repositories: Option<set<string>>)  // 200; None is a null body
    | ListFailed                                          // 500
    | InvalidRepoName                                     // 400
    | QueryFailed                                         // 500
    | InsufficientData(repository: string, prCount: nat, totalPrEvents: nat)  // 200, average null
    | AverageTime(repository: string, prCount: nat, totalPrEvents: nat,
                  averageSeconds: real, firstPrDate: int, lastPrDate: int)   // 200
    | InvalidDate                                         // 400

  function StatusCode(r: PrAverageResponse): int {
    match r
    case RepositoryList(_) => 200
    case InsufficientData(_, _, _) => 200
    case AverageTime(_, _, _, _, _, _) => 200
    case InvalidRepoName => 400
    case InvalidDate => 400
    case ListFailed => 500
    case QueryFailed => 500
  }

  /** The pull-request rows of one repository, in index order. */
  function RowsOf(rows: seq<PrRow>, repo: string): (r: seq<PrRow>)
    ensures forall x :: x in r ==> x.repoName == repo && x in rows
  {
    if rows == [] then []
    else
      var last := rows[|rows| - 1];
      RowsOf(rows[..|rows| - 1], repo) + (if last.repoName == repo then [last] else [])
  }

  /** Without a repository name, lists the repositories with more than two
      opened pull requests; otherwise validates the name, fetches the
      repository's pull-request rows and reports the average time between
      opened ones, or "insufficient data" when fewer than two were opened. */
  method HandlePrAverageRequest(repoParam: Option<string>, counters: map<string, nat>, scanFails: bool,
                                prRows: seq<PrRow>, queryFails: bool)
    returns (resp: PrAverageResponse)
    ensures repoParam.None? || repoParam == Some("") ==>
      resp == (if scanFails then ListFailed
               else if ReposWithOpenedPr(counters, ListingMinCount) == {} then RepositoryList(None)
               else RepositoryList(Some(ReposWithOpenedPr(counters, ListingMinCount))))
    ensures repoParam.Some? && repoParam.value != "" ==>
      var name := repoParam.value;
      var rows := RowsOf(prRows, name);
      var openedRows := Opened(rows);
      if !IsValidRepoName(name) then resp == InvalidRepoName
      else if queryFails then resp == QueryFailed
      else if |openedRows| < 2 then resp == InsufficientData(name, |openedRows|, |rows|)
      else if !AllTimestamped(openedRows) then resp == InvalidDate
      else resp == AverageTime(name, |openedRows|, |rows|, MeanGap(Timestamps(openedRows)),
                               openedRows[0].createdAt.value, openedRows[|openedRows| - 1].createdAt.value)
  {
    if repoParam.None? || repoParam.value == "" {
      if scanFails {
        return ListFailed;
      }
      var repos := ReposWithOpenedPr(counters, ListingMinCount);
      return RepositoryList(if repos == {} then None else Some(repos));
    }
    var name := repoParam.value;
    if !IsValidRepoName(name) {
      return InvalidRepoName;
    }
    if queryFails {
      return QueryFailed;
    }
    var rows := RowsOf(prRows, name);
    var openedRows := Opened(rows);
    if |openedRows| < 2 {
      return InsufficientData(name, |openedRows|, |rows|);
    }
    HandlerNeverFallsBack(rows);
    var avg := CalculateAverageTimeBetweenPr(openedRows);
    if avg.Failure? {
      return InvalidDate;
    }
    return AverageTime(name, |openedRows|, |rows|, avg.value,
                       openedRows[0].createdAt.value, openedRows[|openedRows| - 1].createdAt.value);
  }

  // ----- the event-count endpoint -----

  datatype EventCountResponse =
    | OffsetNotInteger                                   // 400
    | OffsetNegative                                     // 400
    | EventCounts(startTime: int, endTime: int, offsetMinutes: nat,
                  counts: map<string, nat>, totalEvents: nat)   // 200

  /** One count query per type over the trailing window; a failed query
      counts 0 for its type only. */
  method GetEventsByTypeAndTime(types: seq<string>, minutesOffset: nat, now: int,
                                index: seq<IndexEntry>, failedTypes: set<string>)
    returns (counts: map<string, nat>)
    ensures counts.Keys == set t | t in types
    ensures forall t :: t in counts ==>
      counts[t] == if t in failedTypes then 0 else CountSince(index, t, now - 60 * minutesOffset)
  {
    var cutoff := now - 60 * minutesOffset;
    counts := map[];
    for i := 0 to |types|
      invariant counts.Keys == set t | t in types[..i]
      invariant forall t :: t in counts ==>
        counts[t] == if t in failedTypes then 0 else CountSince(index, t, cutoff)
    {
      assert forall t :: t in types[..i + 1] <==> t in types[..i] || t == types[i];
      if types[i] in failedTypes {
        counts := counts[types[i] := 0];
      } else {
        counts := counts[types[i] := CountSince(index, types[i], cutoff)];
      }
    }
    assert types[..|types|] == types;
  }

  /** Validates the offset (default 10 minutes, negative rejected) and counts
      the three event types over the window ending at `now`. */
  method HandleEventCountRequest(offsetParam: IntParam, now: int, index: seq<IndexEntry>, failedTypes: set<string>)
    returns (resp: EventCountResponse)
    ensures offsetParam.NotAnInteger? <==> resp == OffsetNotInteger
    ensures (offsetParam.IntValue? && offsetParam.value < 0) <==> resp == OffsetNegative
    ensures resp.EventCounts? ==>
      && resp.offsetMinutes == (if offsetParam.Absent? then DefaultOffsetMinutes else offsetParam.value)
      && resp.endTime == now && resp.startTime == now - 60 * resp.offsetMinutes
      && resp.counts.Keys == {WatchEvent, PullRequestEvent, IssuesEvent}
      && (forall t :: t in resp.counts ==>
            resp.counts[t] == if t in failedTypes then 0 else CountSince(index, t, resp.startTime))
      && resp.totalEvents == SumOver(resp.counts, EventTypes)
  {
    var offset: int;
    match offsetParam {
      case Absent => offset := DefaultOffsetMinutes;
      case NotAnInteger => return OffsetNotInteger;
      case IntValue(v) => offset := v;
    }
    if offset < 0 {
      return OffsetNegative;
    }
    var counts := GetEventsByTypeAndTime(EventTypes, offset, now, index, failedTypes);
    assert counts.Keys == {WatchEvent, PullRequestEvent, IssuesEvent} by {
      assert forall t :: t in EventTypes <==> t == WatchEvent || t == PullRequestEvent || t == IssuesEvent;
    }
    return EventCounts(now - 60 * offset, now, offset, counts, SumOver(counts, EventTypes));
  }
}
