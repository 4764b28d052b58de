/** What the scanner extracts from fetched pull-request and branch lists:
    the set of head refs (open or all PRs), the closed/merged records and the
    protected branch names. */
module PullRequestRefs {
  import opened Base
  import opened GitHubData

  /** The distinct non-empty head refs of `prs`. */
  function RefsOf(prs: seq<PullRequest>): (refs: set<string>)
    ensures forall r :: r in refs <==> exists i :: 0 <= i < |prs| && HasHeadRef(prs[i]) && prs[i].headRef.value == r
  {
    set i | 0 <= i < |prs| && HasHeadRef(prs[i]) :: prs[i].headRef.value
  }

  /** The loop of `get_open_pr_branches` (and of `get_all_pr_branches`, on
      the list of PRs in every state): add each truthy head ref to a set. */
  method HeadRefs(prs: seq<PullRequest>) returns (refs: set<string>)
    ensures refs == RefsOf(prs)
  {
    refs := {};
    for i := 0 to |prs|
      invariant forall r :: r in refs <==> exists k :: 0 <= k < i && HasHeadRef(prs[k]) && prs[k].headRef.value == r
    {
      if HasHeadRef(prs[i]) {
        refs := refs + {prs[i].headRef.value};
      }
    }
  }

  /** A ref is collected exactly when some PR of the list carries it. */
  lemma RefsOfMembers(prs: seq<PullRequest>, r: string)
    ensures r in RefsOf(prs) <==> exists pr :: pr in prs && HasHeadRef(pr) && pr.headRef.value == r
  {
    if r in RefsOf(prs) {
      var i :| 0 <= i < |prs| && HasHeadRef(prs[i]) && prs[i].headRef.value == r;
      assert prs[i] in prs;
    }
    if exists pr :: pr in prs && HasHeadRef(pr) && pr.headRef.value == r {
      var pr :| pr in prs && HasHeadRef(pr) && pr.headRef.value == r;
      var i :| 0 <= i < |prs| && prs[i] == pr;
    }
  }

  /** The refs of a list fetched with `state=all` are those of its open PRs
      together with those of its closed PRs, in whatever order the list
      mixes them. */
  lemma RefsOfAllStates(all: seq<PullRequest>, open: seq<PullRequest>, closed: seq<PullRequest>)
    requires multiset(all) == multiset(open) + multiset(closed)
    ensures RefsOf(all) == RefsOf(open) + RefsOf(closed)
  {
    forall r ensures r in RefsOf(all) <==> r in RefsOf(open) || r in RefsOf(closed) {
      RefsOfMembers(all, r);
      RefsOfMembers(open, r);
      RefsOfMembers(closed, r);
      if r in RefsOf(all) {
        var pr :| pr in all && HasHeadRef(pr) && pr.headRef.value == r;
        assert pr in multiset(all);
        assert pr in open || pr in closed;
      }
      if r in RefsOf(open) {
        var pr :| pr in open && HasHeadRef(pr) && pr.headRef.value == r;
        assert multiset(all)[pr] == multiset(open)[pr] + multiset(closed)[pr];
        assert pr in multiset(all);
      }
      if r in RefsOf(closed) {
        var pr :| pr in closed && HasHeadRef(pr) && pr.headRef.value == r;
        assert multiset(all)[pr] == multiset(open)[pr] + multiset(closed)[pr];
        assert pr in multiset(all);
      }
    }
  }

  datatype Status = Merged | Closed

  /** One record of `get_closed_merged_pr_branches`. `closedAt` keeps the
      parsed instant in place of its "%Y-%m-%d" rendering. */
  datatype ClosedRecord = ClosedRecord(
    branch: string,
    prNumber: int,
    prUrl: string,
    user: string,
    status: Status,
    closedAt: int,
    daysSinceClosed: int)

  /** A closed PR yields a record when it has a head ref and a `closed_at`. */
  predicate IsReported(pr: PullRequest)
  {
    HasHeadRef(pr) && pr.closedAt.Some?
  }

  /** The record of a reported PR: the branch is its head ref, the status is
      merged exactly when `merged_at` is set, an absent user reads "Unknown",
      and the age is the whole days elapsed since closing. */
  function RecordOf(pr: PullRequest, now: int): (c: ClosedRecord)
    requires IsReported(pr)
    ensures c.branch == pr.headRef.value && c.branch != ""
    ensures c.prNumber == pr.number && c.prUrl == pr.htmlUrl && c.closedAt == pr.closedAt.value
    ensures c.status == Merged <==> pr.mergedAt.Some?
    ensures pr.user.None? ==> c.user == UnknownUser
    ensures pr.user.Some? ==> c.user == pr.user.value
    ensures c.daysSinceClosed * SecondsPerDay <= now - c.closedAt < (c.daysSinceClosed + 1) * SecondsPerDay
  {
    ClosedRecord(pr.headRef.value, pr.number, pr.htmlUrl, UserLogin(pr),
                 if pr.mergedAt.Some? then Merged else Closed,
                 pr.closedAt.value, DaysSince(now, pr.closedAt.value))
  }

  /** The records for `prs`, one per reported PR, in list order. */
  function ClosedRecordsOf(prs: seq<PullRequest>, now: int): seq<ClosedRecord>
    decreases |prs|
  {
    if |prs| == 0 then []
    else
      var last := prs[|prs| - 1];
      ClosedRecordsOf(prs[..|prs| - 1], now) + (if IsReported(last) then [RecordOf(last, now)] else [])
  }

  /** The loop of `get_closed_merged_pr_branches` over the fetched closed PRs. */
  method ClosedMergedRecords(prs: seq<PullRequest>, now: int) returns (records: seq<ClosedRecord>)
    ensures records == ClosedRecordsOf(prs, now)
  {
    records := [];
    for i := 0 to |prs|
      invariant records == ClosedRecordsOf(prs[..i], now)
    {
      assert prs[..i + 1][..i] == prs[..i];
      var pr := prs[i];
      if HasHeadRef(pr) {
        if pr.closedAt.Some? {
          var status := if pr.mergedAt.Some? then Merged else Closed;
          records := records + [ClosedRecord(pr.headRef.value, pr.number, pr.htmlUrl, UserLogin(pr),
                                             status, pr.closedAt.value, DaysSince(now, pr.closedAt.value))];
        }
      }
    }
    assert prs[..|prs|] == prs;
  }

  /** A record is emitted exactly for each PR with a non-empty head ref and a
      `closed_at`, and nothing else is. */
  lemma {:induction false} ClosedRecordsMembership(prs: seq<PullRequest>, now: int, c: ClosedRecord)
    ensures c in ClosedRecordsOf(prs, now) <==> exists j :: 0 <= j < |prs| && IsReported(prs[j]) && c == RecordOf(prs[j], now)
    decreases |prs|
  {
    if |prs| > 0 {
      var init := prs[..|prs| - 1];
      ClosedRecordsMembership(init, now, c);
      if c in ClosedRecordsOf(init, now) {
        var j :| 0 <= j < |init| && IsReported(init[j]) && c == RecordOf(init[j], now);
        assert prs[j] == init[j];
      }
      if exists j :: 0 <= j < |prs| && IsReported(prs[j]) && c == RecordOf(prs[j], now) {
        var j :| 0 <= j < |prs| && IsReported(prs[j]) && c == RecordOf(prs[j], now);
        if j < |prs| - 1 {
          assert init[j] == prs[j];
        }
      }
    }
  }

  /** There are as many records as reported PRs (none merged away). */
  lemma {:induction false} ClosedRecordsCount(prs: seq<PullRequest>, now: int)
    ensures |ClosedRecordsOf(prs, now)| == |Filter(prs, IsReported)|
    decreases |prs|
  {
    if |prs| > 0 {
      var init := prs[..|prs| - 1];
      ClosedRecordsCount(init, now);
      assert prs == init + [prs[|prs| - 1]];
      FilterConcat(init, [prs[|prs| - 1]], IsReported);
    }
  }

  /** The loop of `get_protected_branches`: the names of the protected entries. */
  method ProtectedNames(branches: seq<Branch>) returns (names: set<string>)
    ensures forall n :: n in names <==> exists i :: 0 <= i < |branches| && branches[i].protected && branches[i].name == n
  {
    names := {};
    for i := 0 to |branches|
      invariant forall n :: n in names <==> exists k :: 0 <= k < i && branches[k].protected && branches[k].name == n
    {
      if branches[i].protected {
        names := names + {branches[i].name};
      }
    }
  }
}
