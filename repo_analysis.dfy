/** `analyze_repo`: one repository's open-PR list, orphaned branches,
    orphan details and surviving closed/merged branches, computed from
    already-fetched data. */
module RepoAnalysis {
  import opened Base
  import opened GitHubData
  import opened PullRequestRefs

  /** One entry of `open_prs`. `createdAt` keeps the parsed instant in place
      of its "%Y-%m-%d" rendering. */
  datatype PrInfo = PrInfo(number: int, daysOld: int, createdAt: int, url: string, user: string)

  /** One entry of `orphaned_branch_details`. */
  datatype BranchDetail = BranchDetail(name: string, author: string)

  /** The dictionary `analyze_repo` returns. */
  datatype RepoResult = RepoResult(
    name: string,
    url: string,
    openPrs: seq<PrInfo>,
    totalBranches: nat,
    branchesWithoutPrsCount: nat,
    staleBranches: seq<string>,
    orphanedBranchDetails: seq<BranchDetail>,
    closedMergedPrBranches: seq<ClosedRecord>)

  function InfoOf(pr: PullRequest, now: int): PrInfo
  {
    PrInfo(pr.number, DaysSince(now, pr.createdAt), pr.createdAt, pr.htmlUrl, UserLogin(pr))
  }

  /** `pr_info` before sorting: one entry per open PR, in fetch order. */
  function InfosOf(prs: seq<PullRequest>, now: int): seq<PrInfo>
  {
    Map((pr: PullRequest) => InfoOf(pr, now), prs)
  }

  /** The loop building `pr_info`: each entry keeps the PR's number, URL and
      creation instant, its age is the whole days elapsed since creation, and
      a missing user reads "Unknown". */
  method OpenPrInfo(prs: seq<PullRequest>, now: int) returns (info: seq<PrInfo>)
    ensures info == InfosOf(prs, now)
    ensures |info| == |prs|
    ensures forall i :: 0 <= i < |prs| ==>
      && info[i].number == prs[i].number && info[i].url == prs[i].htmlUrl
      && info[i].createdAt == prs[i].createdAt
      && info[i].daysOld * SecondsPerDay <= now - prs[i].createdAt < (info[i].daysOld + 1) * SecondsPerDay
      && info[i].user == (if prs[i].user.Some? then prs[i].user.value else UnknownUser)
  {
    info := [];
    for i := 0 to |prs|
      invariant |info| == i
      invariant forall k :: 0 <= k < i ==> info[k] == InfoOf(prs[k], now)
    {
      var pr := prs[i];
      var daysOld := DaysSince(now, pr.createdAt);
      info := info + [PrInfo(pr.number, daysOld, pr.createdAt, pr.htmlUrl, UserLogin(pr))];
    }
  }

  /** `branch_names`: the set of names in the branch list. */
  function BranchNames(branches: seq<Branch>): (names: set<string>)
    ensures forall n :: n in names <==> exists i :: 0 <= i < |branches| && branches[i].name == n
  {
    set b | b in branches :: b.name
  }

  /** `orphaned_branches`: existing branches with no open PR that are neither
      the default branch nor protected. */
  function Orphaned(names: set<string>, openRefs: set<string>, defaultBranch: string, protectedBranches: set<string>): (o: set<string>)
    ensures o <= names
    ensures o !! openRefs && defaultBranch !in o && o !! protectedBranches
    ensures forall b :: b in names && b !in openRefs && b != defaultBranch && b !in protectedBranches ==> b in o
  {
    names - openRefs - ({defaultBranch} + protectedBranches)
  }

  /** `closed_merged_existing`: the closed/merged records, in order, whose
      branch still exists; every record for such a branch is kept. */
  function ExistingRecords(records: seq<ClosedRecord>, names: set<string>): (r: seq<ClosedRecord>)
    ensures forall k :: 0 <= k < |r| ==> r[k].branch in names
    ensures forall c :: multiset(r)[c] == if c.branch in names then multiset(records)[c] else 0
  {
    var stillExists := (c: ClosedRecord) => c.branch in names;
    FilterCount(records, stillExists);
    Filter(records, stillExists)
  }

  /** Oldest first: `days_old` never increases along the list. */
  predicate NonIncreasing(s: seq<PrInfo>)
  {
    forall i, j :: 0 <= i < j < |s| ==> s[i].daysOld >= s[j].daysOld
  }

  /** Places `x` in front of the first entry that is not older than it. */
  function InsertByAge(x: PrInfo, s: seq<PrInfo>): seq<PrInfo>
    decreases |s|
  {
    if |s| == 0 || s[0].daysOld <= x.daysOld then [x] + s
    else [s[0]] + InsertByAge(x, s[1..])
  }

  /** `sorted(pr_info, key=days_old, reverse=True)`: a stable sort, oldest first. */
  function SortByAge(s: seq<PrInfo>): seq<PrInfo>
    decreases |s|
  {
    if |s| == 0 then [] else InsertByAge(s[0], SortByAge(s[1..]))
  }

  lemma {:induction false} InsertByAgeMultiset(x: PrInfo, s: seq<PrInfo>)
    ensures multiset(InsertByAge(x, s)) == multiset{x} + multiset(s)
    decreases |s|
  {
    if |s| > 0 && s[0].daysOld > x.daysOld {
      InsertByAgeMultiset(x, s[1..]);
      assert s == [s[0]] + s[1..];
    }
  }

  /** The sorted list holds exactly the entries of `pr_info`, with their multiplicities. */
  lemma {:induction false} SortByAgePermutes(s: seq<PrInfo>)
    ensures multiset(SortByAge(s)) == multiset(s)
    decreases |s|
  {
    if |s| > 0 {
      SortByAgePermutes(s[1..]);
      InsertByAgeMultiset(s[0], SortByAge(s[1..]));
      assert s == [s[0]] + s[1..];
    }
  }

  lemma {:induction false} InsertByAgeOrdered(x: PrInfo, s: seq<PrInfo>)
    requires NonIncreasing(s)
    ensures NonIncreasing(InsertByAge(x, s))
    ensures |InsertByAge(x, s)| == |s| + 1
    ensures InsertByAge(x, s)[0] == x || (|s| > 0 && InsertByAge(x, s)[0] == s[0])
    decreases |s|
  {
    if |s| > 0 && s[0].daysOld > x.daysOld {
      InsertByAgeOrdered(x, s[1..]);
      var t := InsertByAge(x, s[1..]);
      assert InsertByAge(x, s) == [s[0]] + t;
      forall k | 0 <= k < |t| ensures s[0].daysOld >= t[k].daysOld {
        InsertByAgeMultiset(x, s[1..]);
        assert t[k] in multiset(t);
        assert t[k] == x || t[k] in s[1..];
      }
    }
  }

  /** The sorted list is oldest first. */
  lemma {:induction false} SortByAgeOrdered(s: seq<PrInfo>)
    ensures NonIncreasing(SortByAge(s))
    decreases |s|
  {
    if |s| > 0 {
      SortByAgeOrdered(s[1..]);
      InsertByAgeOrdered(s[0], SortByAge(s[1..]));
    }
  }

  function AgeIs(d: int): PrInfo -> bool
  {
    (pr: PrInfo) => pr.daysOld == d
  }

  lemma {:induction false} InsertByAgeStable(x: PrInfo, s: seq<PrInfo>, d: int)
    ensures Filter(InsertByAge(x, s), AgeIs(d)) == Filter([x] + s, AgeIs(d))
    decreases |s|
  {
    if |s| > 0 && s[0].daysOld > x.daysOld {
      InsertByAgeStable(x, s[1..], d);
      assert ([x] + s)[1..] == s;
      assert ([x] + s[1..])[1..] == s[1..];
      assert ([s[0]] + InsertByAge(x, s[1..]))[1..] == InsertByAge(x, s[1..]);
      assert s == [s[0]] + s[1..];
    }
  }

  /** Stability: among entries of the same age the original order is kept. */
  lemma {:induction false} SortByAgeStable(s: seq<PrInfo>, d: int)
    ensures Filter(SortByAge(s), AgeIs(d)) == Filter(s, AgeIs(d))
    decreases |s|
  {
    if |s| > 0 {
      SortByAgeStable(s[1..], d);
      InsertByAgeStable(s[0], SortByAge(s[1..]), d);
      assert ([s[0]] + SortByAge(s[1..]))[1..] == SortByAge(s[1..]);
    }
  }

  /** `any(b['branch'] == name for b in closed_merged_existing)`. */
  predicate HasRecord(records: seq<ClosedRecord>, name: string)
  {
    exists k :: 0 <= k < |records| && records[k].branch == name
  }

  /** The details the pretty loop collects while walking `order`: one per
      branch without a closed/merged record, with its last commit author. */
  function DetailsOf(order: seq<string>, records: seq<ClosedRecord>, authorOf: string -> string): seq<BranchDetail>
    decreases |order|
  {
    if |order| == 0 then []
    else
      var b := order[|order| - 1];
      DetailsOf(order[..|order| - 1], records, authorOf)
        + (if HasRecord(records, b) then [] else [BranchDetail(b, authorOf(b))])
  }

  /** A detail is listed exactly for a walked branch with no closed/merged
      record, and it carries that branch's author. */
  lemma {:induction false} DetailsMembership(order: seq<string>, records: seq<ClosedRecord>, authorOf: string -> string, d: BranchDetail)
    ensures d in DetailsOf(order, records, authorOf) <==> d.name in order && !HasRecord(records, d.name) && d.author == authorOf(d.name)
    decreases |order|
  {
    if |order| > 0 {
      var init := order[..|order| - 1];
      DetailsMembership(init, records, authorOf, d);
      assert order == init + [order[|order| - 1]];
    }
  }

  /** Walking a list without repeats lists every branch at most once. */
  lemma {:induction false} DetailsDistinct(order: seq<string>, records: seq<ClosedRecord>, authorOf: string -> string)
    requires Distinct(order)
    ensures var ds := DetailsOf(order, records, authorOf);
      forall i, j :: 0 <= i < j < |ds| ==> ds[i].name != ds[j].name
    decreases |order|
  {
    if |order| > 0 {
      var init := order[..|order| - 1];
      var b := order[|order| - 1];
      assert Distinct(init);
      DetailsDistinct(init, records, authorOf);
      var ds0 := DetailsOf(init, records, authorOf);
      forall i | 0 <= i < |ds0| ensures ds0[i].name != b {
        DetailsMembership(init, records, authorOf, ds0[i]);
        assert ds0[i] in ds0;
        var k :| 0 <= k < |init| && init[k] == ds0[i].name;
        assert order[k] == init[k];
      }
      var tail := if HasRecord(records, b) then [] else [BranchDetail(b, authorOf(b))];
      var ds := DetailsOf(order, records, authorOf);
      assert ds == ds0 + tail;
      forall i, j | 0 <= i < j < |ds| ensures ds[i].name != ds[j].name {
        assert ds[i] == ds0[i];
        if j < |ds0| {
          assert ds[j] == ds0[j];
        } else {
          assert ds[j].name == b;
        }
      }
    }
  }

  /** The pretty-print loop of `analyze_repo`, walking the orphaned branches in
      `order`; with pretty printing off nothing is collected. */
  method OrphanDetails(prettyPrint: bool, order: seq<string>, records: seq<ClosedRecord>, authorOf: string -> string)
    returns (details: seq<BranchDetail>)
    ensures details == if prettyPrint then DetailsOf(order, records, authorOf) else []
  {
    details := [];
    if prettyPrint {
      for i := 0 to |order|
        invariant details == DetailsOf(order[..i], records, authorOf)
      {
        assert order[..i + 1][..i] == order[..i];
        var name := order[i];
        if HasRecord(records, name) {
          continue;
        }
        var author := authorOf(name);
        details := details + [BranchDetail(name, author)];
      }
      assert order[..|order|] == order;
    }
  }

  /** The order in which the scanner walks a set of names: every element
      once, in some order the set chooses. */
  method ListOfSet(s: set<string>) returns (xs: seq<string>)
    ensures Distinct(xs)
    ensures forall x :: x in xs <==> x in s
    ensures |xs| == |s|
  {
    xs := [];
    var rest := s;
    while rest != {}
      invariant forall x :: x in s <==> x in rest || x in xs
      invariant forall x :: x in rest ==> x !in xs
      invariant Distinct(xs)
      invariant |xs| + |rest| == |s|
      decreases |rest|
    {
      var x :| x in rest;
      xs := xs + [x];
      rest := rest - {x};
    }
  }

  /** What the issue check and the table rely on: the orphan count is the
      length of the orphan list, which has no repeats, and every detail names
      a listed orphan. */
  predicate Consistent(r: RepoResult)
  {
    && r.branchesWithoutPrsCount == |r.staleBranches|
    && Distinct(r.staleBranches)
    && forall k :: 0 <= k < |r.orphanedBranchDetails| ==> r.orphanedBranchDetails[k].name in r.staleBranches
  }

  /** `analyze_repo` on fetched data. `openPrs` is the open-PR list (used both
      for `pr_info` and for the open head refs), `closedPrs` the closed-PR
      list, `authorOf` the last-commit-author lookup. */
  method AnalyzeRepo(
    name: string, url: string,
    openPrs: seq<PullRequest>, branches: seq<Branch>, closedPrs: seq<PullRequest>,
    defaultBranch: string, protectedBranches: set<string>,
    prettyPrint: bool, now: int, authorOf: string -> string)
    returns (result: RepoResult)
    ensures result.name == name && result.url == url
    // open PRs: a permutation of `pr_info`, oldest first, equal ages in fetch order
    ensures result.openPrs == SortByAge(InfosOf(openPrs, now))
    ensures multiset(result.openPrs) == multiset(InfosOf(openPrs, now))
    ensures NonIncreasing(result.openPrs)
    ensures forall d :: Filter(result.openPrs, AgeIs(d)) == Filter(InfosOf(openPrs, now), AgeIs(d))
    ensures result.totalBranches == |branches|
    // orphaned branches
    ensures var orphaned := Orphaned(BranchNames(branches), RefsOf(openPrs), defaultBranch, protectedBranches);
      && (forall b :: b in result.staleBranches <==> b in orphaned)
      && result.branchesWithoutPrsCount == |orphaned| == |result.staleBranches|
    // surviving closed/merged records
    ensures result.closedMergedPrBranches == ExistingRecords(ClosedRecordsOf(closedPrs, now), BranchNames(branches))
    // orphan details
    ensures !prettyPrint ==> result.orphanedBranchDetails == []
    ensures prettyPrint ==> forall d :: d in result.orphanedBranchDetails <==>
      d.name in result.staleBranches && !HasRecord(result.closedMergedPrBranches, d.name) && d.author == authorOf(d.name)
    ensures result.orphanedBranchDetails == if prettyPrint then DetailsOf(result.staleBranches, result.closedMergedPrBranches, authorOf) else []
    ensures forall i, j :: 0 <= i < j < |result.orphanedBranchDetails| ==>
      result.orphanedBranchDetails[i].name != result.orphanedBranchDetails[j].name
    ensures Consistent(result)
  {
    var prInfo := OpenPrInfo(openPrs, now);
    var branchNames := BranchNames(branches);
    var openPrBranches := HeadRefs(openPrs);
    var closedMerged := ClosedMergedRecords(closedPrs, now);
    var closedMergedExisting := ExistingRecords(closedMerged, branchNames);
    var orphaned := Orphaned(branchNames, openPrBranches, defaultBranch, protectedBranches);
    var order := ListOfSet(orphaned);
    var details := OrphanDetails(prettyPrint, order, closedMergedExisting, authorOf);

    SortByAgePermutes(prInfo);
    SortByAgeOrdered(prInfo);
    forall d ensures Filter(SortByAge(prInfo), AgeIs(d)) == Filter(prInfo, AgeIs(d)) {
      SortByAgeStable(prInfo, d);
    }
    DetailsDistinct(order, closedMergedExisting, authorOf);
    forall d ensures d in details ==> d.name in order {
      DetailsMembership(order, closedMergedExisting, authorOf, d);
    }
    if prettyPrint {
      forall d ensures d in details <==> d.name in order && !HasRecord(closedMergedExisting, d.name) && d.author == authorOf(d.name) {
        DetailsMembership(order, closedMergedExisting, authorOf, d);
      }
    }

    result := RepoResult(name, url, SortByAge(prInfo), |branches|, |orphaned|, order, details, closedMergedExisting);
  }
}
