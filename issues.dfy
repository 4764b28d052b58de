/** The "has issues" test applied to every analysed repository (in the scan
    loop and again in the Markdown report's repository details), and the
    scan summary's two running totals. */
module Issues {
  import opened Base
  import opened RepoAnalysis

  /** More than three open PRs, or one older than the threshold, or an
      orphaned branch. */
  predicate HasIssues(r: RepoResult, threshold: int)
  {
    || |r.openPrs| > 3
    || (exists pr :: pr in r.openPrs && pr.daysOld > threshold)
    || r.branchesWithoutPrsCount > 0
  }

  /** `r2` is at least as bad as `r` on every count the test looks at: at
      least as many open PRs, an at-least-as-old PR for each PR of `r`, and at
      least as many orphaned branches. */
  predicate WorseOrEqual(r: RepoResult, r2: RepoResult)
  {
    && |r.openPrs| <= |r2.openPrs|
    && (forall pr :: pr in r.openPrs ==> exists pr2 :: pr2 in r2.openPrs && pr2.daysOld >= pr.daysOld)
    && r.branchesWithoutPrsCount <= r2.branchesWithoutPrsCount
  }

  /** The test is monotone: a worse repository, judged against a threshold no
      higher, cannot lose its issues. */
  lemma HasIssuesMonotone(r: RepoResult, r2: RepoResult, threshold: int, threshold2: int)
    requires WorseOrEqual(r, r2) && threshold2 <= threshold
    ensures HasIssues(r, threshold) ==> HasIssues(r2, threshold2)
  {
    if exists pr :: pr in r.openPrs && pr.daysOld > threshold {
      var pr :| pr in r.openPrs && pr.daysOld > threshold;
      var pr2 :| pr2 in r2.openPrs && pr2.daysOld >= pr.daysOld;
      assert pr2.daysOld > threshold2;
    }
  }

  /** Adding open PRs (anywhere in the list) or orphaned branches keeps the issues. */
  lemma {:induction false} MorePrsKeepIssues(r: RepoResult, r2: RepoResult, threshold: int)
    requires multiset(r.openPrs) <= multiset(r2.openPrs)
    requires r.branchesWithoutPrsCount <= r2.branchesWithoutPrsCount
    ensures HasIssues(r, threshold) ==> HasIssues(r2, threshold)
  {
    var extra := multiset(r2.openPrs) - multiset(r.openPrs);
    assert multiset(r2.openPrs) == multiset(r.openPrs) + extra;
    assert |multiset(r2.openPrs)| == |multiset(r.openPrs)| + |extra|;
    forall pr | pr in r.openPrs ensures exists pr2 :: pr2 in r2.openPrs && pr2.daysOld >= pr.daysOld {
      assert pr in multiset(r.openPrs);
      assert pr in r2.openPrs;
    }
    HasIssuesMonotone(r, r2, threshold, threshold);
  }

  /** Ageing open PRs (each entry at least as old as before) keeps the issues. */
  lemma OlderPrsKeepIssues(r: RepoResult, r2: RepoResult, threshold: int)
    requires |r.openPrs| == |r2.openPrs|
    requires forall i :: 0 <= i < |r.openPrs| ==> r.openPrs[i].daysOld <= r2.openPrs[i].daysOld
    requires r.branchesWithoutPrsCount <= r2.branchesWithoutPrsCount
    ensures HasIssues(r, threshold) ==> HasIssues(r2, threshold)
  {
    forall pr | pr in r.openPrs ensures exists pr2 :: pr2 in r2.openPrs && pr2.daysOld >= pr.daysOld {
      var i :| 0 <= i < |r.openPrs| && r.openPrs[i] == pr;
      assert r2.openPrs[i] in r2.openPrs;
    }
    HasIssuesMonotone(r, r2, threshold, threshold);
  }

  /** On an oldest-first list the age part of the test only needs the first entry. */
  lemma OldestDecidesAge(r: RepoResult, threshold: int)
    requires NonIncreasing(r.openPrs)
    ensures HasIssues(r, threshold) <==>
      |r.openPrs| > 3 || (|r.openPrs| > 0 && r.openPrs[0].daysOld > threshold) || r.branchesWithoutPrsCount > 0
  {
    if exists pr :: pr in r.openPrs && pr.daysOld > threshold {
      var pr :| pr in r.openPrs && pr.daysOld > threshold;
      var i :| 0 <= i < |r.openPrs| && r.openPrs[i] == pr;
      assert i == 0 || r.openPrs[0].daysOld >= r.openPrs[i].daysOld;
    }
    if |r.openPrs| > 0 {
      assert r.openPrs[0] in r.openPrs;
    }
  }

  /** `summary['total_open_prs']`: the open PRs of all results. */
  function TotalOpenPrs(results: seq<RepoResult>): nat
    decreases |results|
  {
    if |results| == 0 then 0
    else TotalOpenPrs(results[..|results| - 1]) + |results[|results| - 1].openPrs|
  }

  /** `summary['repos_with_issues']`: how many results have issues. */
  function IssueCount(results: seq<RepoResult>, threshold: int): nat
    decreases |results|
  {
    if |results| == 0 then 0
    else IssueCount(results[..|results| - 1], threshold) + (if HasIssues(results[|results| - 1], threshold) then 1 else 0)
  }

  /** The scan loop's running totals over the analysed repositories. */
  method Tally(results: seq<RepoResult>, threshold: int) returns (totalOpenPrs: nat, reposWithIssues: nat)
    ensures totalOpenPrs == TotalOpenPrs(results)
    ensures reposWithIssues == IssueCount(results, threshold)
  {
    totalOpenPrs, reposWithIssues := 0, 0;
    for i := 0 to |results|
      invariant totalOpenPrs == TotalOpenPrs(results[..i])
      invariant reposWithIssues == IssueCount(results[..i], threshold)
    {
      assert results[..i + 1][..i] == results[..i];
      var result := results[i];
      totalOpenPrs := totalOpenPrs + |result.openPrs|;
      if HasIssues(result, threshold) {
        reposWithIssues := reposWithIssues + 1;
      }
    }
    assert results[..|results|] == results;
  }

  /** The repositories the Markdown report details, in scan order. */
  function IssueRepos(results: seq<RepoResult>, threshold: int): seq<RepoResult>
  {
    Filter(results, (r: RepoResult) => HasIssues(r, threshold))
  }

  /** The summary's "repositories with issues" equals the number of
      repositories the report details, since both use the same test. */
  lemma {:induction false} IssueCountMatchesDetails(results: seq<RepoResult>, threshold: int)
    ensures IssueCount(results, threshold) == |IssueRepos(results, threshold)|
    ensures IssueCount(results, threshold) <= |results|
    decreases |results|
  {
    if |results| > 0 {
      var init := results[..|results| - 1];
      IssueCountMatchesDetails(init, threshold);
      assert results == init + [results[|results| - 1]];
      FilterConcat(init, [results[|results| - 1]], (r: RepoResult) => HasIssues(r, threshold));
    }
  }
}
