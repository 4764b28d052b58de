/** `collect_table_rows` (the rows of the stale-PR/orphaned-branch table) and
    the column truncation of the console table. */
module TableReport {
  import opened Base
  import opened PullRequestRefs
  import opened RepoAnalysis
  import opened Issues

  datatype RowKind = StalePr | OrphanedBranch

  /** One row of the table, with its cells as the scanner formats them. */
  datatype Row = Row(repo: string, kind: RowKind, item: string, link: string, user: string, age: string)

  function DigitChar(d: nat): char
    requires d < 10
  {
    "0123456789"[d]
  }

  function NatText(n: nat): string
    decreases n
  {
    if n < 10 then [DigitChar(n)] else NatText(n / 10) + [DigitChar(n % 10)]
  }

  /** Python's decimal rendering of an integer. */
  function Decimal(n: int): string
  {
    if n < 0 then "-" + NatText(-n) else NatText(n)
  }

  /** An open PR older than the threshold gets a "Stale PR" row. */
  function IsStale(threshold: int): PrInfo -> bool
  {
    (pr: PrInfo) => pr.daysOld > threshold
  }

  /** The "Stale PR" row of an open PR. */
  function StaleRowOf(repo: string, pr: PrInfo): Row
  {
    Row(repo, StalePr, "PR #" + Decimal(pr.number), pr.url, pr.user, Decimal(pr.daysOld) + " days")
  }

  /** The "Orphaned Branch" row of an orphan detail, linking to the branch's tree. */
  function OrphanRowOf(org: string, repo: string, d: BranchDetail): Row
  {
    Row(repo, OrphanedBranch, d.name, "https://github.com/" + org + "/" + repo + "/tree/" + d.name, d.author, "-")
  }

  function StaleRow(repo: string): PrInfo -> Row
  {
    (pr: PrInfo) => StaleRowOf(repo, pr)
  }

  function OrphanRow(org: string, repo: string): BranchDetail -> Row
  {
    (d: BranchDetail) => OrphanRowOf(org, repo, d)
  }

  /** One "Stale PR" row per open PR older than the threshold, in list order. */
  function StaleRows(repo: string, prs: seq<PrInfo>, threshold: int): seq<Row>
  {
    Map(StaleRow(repo), Filter(prs, IsStale(threshold)))
  }

  /** One "Orphaned Branch" row per orphan detail, in list order. */
  function OrphanRows(org: string, repo: string, details: seq<BranchDetail>): seq<Row>
  {
    Map(OrphanRow(org, repo), details)
  }

  /** A repository's rows: its stale PRs, then its orphaned branches. */
  function RepoRows(org: string, r: RepoResult, threshold: int): seq<Row>
  {
    StaleRows(r.name, r.openPrs, threshold) + OrphanRows(org, r.name, r.orphanedBranchDetails)
  }

  /** The rows of all repositories, repository by repository in scan order. */
  function RowsOf(org: string, repos: seq<RepoResult>, threshold: int): seq<Row>
    decreases |repos|
  {
    if |repos| == 0 then []
    else RowsOf(org, repos[..|repos| - 1], threshold) + RepoRows(org, repos[|repos| - 1], threshold)
  }

  lemma StaleRowsSnoc(repo: string, prs: seq<PrInfo>, j: nat, threshold: int)
    requires j < |prs|
    ensures StaleRows(repo, prs[..j + 1], threshold)
         == StaleRows(repo, prs[..j], threshold) + (if prs[j].daysOld > threshold then [StaleRowOf(repo, prs[j])] else [])
  {
    var p := IsStale(threshold);
    assert prs[..j + 1] == prs[..j] + [prs[j]];
    FilterConcat(prs[..j], [prs[j]], p);
    assert [prs[j]][1..] == [];
    assert Filter([prs[j]], p) == if p(prs[j]) then [prs[j]] else [];
    MapConcat(StaleRow(repo), Filter(prs[..j], p), Filter([prs[j]], p));
    assert Map(StaleRow(repo), Filter([prs[j]], p)) == if p(prs[j]) then [StaleRowOf(repo, prs[j])] else [];
  }

  /** One step of the loop over open PRs keeps `out` equal to the rows so far. */
  lemma StaleRowsStep(rows: seq<Row>, out: seq<Row>, repo: string, prs: seq<PrInfo>, j: nat, threshold: int)
    requires j < |prs|
    requires out == rows + StaleRows(repo, prs[..j], threshold)
    ensures prs[j].daysOld > threshold ==> out + [StaleRowOf(repo, prs[j])] == rows + StaleRows(repo, prs[..j + 1], threshold)
    ensures prs[j].daysOld <= threshold ==> out == rows + StaleRows(repo, prs[..j + 1], threshold)
  {
    StaleRowsSnoc(repo, prs, j, threshold);
  }

  lemma OrphanRowsSnoc(org: string, repo: string, details: seq<BranchDetail>, j: nat)
    requires j < |details|
    ensures OrphanRows(org, repo, details[..j + 1]) == OrphanRows(org, repo, details[..j]) + [OrphanRowOf(org, repo, details[j])]
  {
    assert details[..j + 1] == details[..j] + [details[j]];
    MapConcat(OrphanRow(org, repo), details[..j], [details[j]]);
  }

  lemma RowsOfSnoc(org: string, repos: seq<RepoResult>, i: nat, threshold: int)
    requires i < |repos|
    ensures RowsOf(org, repos[..i + 1], threshold) == RowsOf(org, repos[..i], threshold) + RepoRows(org, repos[i], threshold)
  {
    assert repos[..i + 1][..i] == repos[..i];
  }

  /** The inner loop over a repository's open PRs: a "Stale PR" row for each
      PR older than the threshold, appended in list order. */
  method AppendStaleRows(rows: seq<Row>, repo: string, prs: seq<PrInfo>, threshold: int) returns (out: seq<Row>)
    ensures out == rows + StaleRows(repo, prs, threshold)
  {
    out := rows;
    for j := 0 to |prs|
      invariant out == rows + StaleRows(repo, prs[..j], threshold)
    {
      StaleRowsStep(rows, out, repo, prs, j, threshold);
      var pr := prs[j];
      if pr.daysOld > threshold {
        out := out + [StaleRowOf(repo, pr)];
      }
    }
    assert prs[..|prs|] == prs;
  }

  /** The inner loop over a repository's orphan details: an "Orphaned Branch"
      row for each, appended in list order. */
  method AppendOrphanRows(rows: seq<Row>, org: string, repo: string, details: seq<BranchDetail>) returns (out: seq<Row>)
    ensures out == rows + OrphanRows(org, repo, details)
  {
    out := rows;
    for j := 0 to |details|
      invariant out == rows + OrphanRows(org, repo, details[..j])
    {
      OrphanRowsSnoc(org, repo, details, j);
      var detail := details[j];
      out := out + [OrphanRowOf(org, repo, detail)];
    }
    assert details[..|details|] == details;
  }

  /** `collect_table_rows`: for each repository, a row per stale open PR and
      then a row per orphan detail. */
  method CollectTableRows(org: string, repos: seq<RepoResult>, threshold: int) returns (rows: seq<Row>)
    ensures rows == RowsOf(org, repos, threshold)
  {
    rows := [];
    for i := 0 to |repos|
      invariant rows == RowsOf(org, repos[..i], threshold)
    {
      RowsOfSnoc(org, repos, i, threshold);
      var repo := repos[i];
      var before := rows;
      var middle := AppendStaleRows(rows, repo.name, repo.openPrs, threshold);
      rows := AppendOrphanRows(middle, org, repo.name, repo.orphanedBranchDetails);
      assert rows == before + RepoRows(org, repo, threshold);
    }
    assert repos[..|repos|] == repos;
  }

  /** How many rows a repository contributes. */
  function RowCount(repos: seq<RepoResult>, threshold: int): nat
    decreases |repos|
  {
    if |repos| == 0 then 0
    else
      var r := repos[|repos| - 1];
      RowCount(repos[..|repos| - 1], threshold) + |Filter(r.openPrs, IsStale(threshold))| + |r.orphanedBranchDetails|
  }

  /** The table has, over all repositories, as many rows as stale open PRs
      plus orphan details. */
  lemma {:induction false} RowsCount(org: string, repos: seq<RepoResult>, threshold: int)
    ensures |RowsOf(org, repos, threshold)| == RowCount(repos, threshold)
    decreases |repos|
  {
    if |repos| > 0 {
      RowsCount(org, repos[..|repos| - 1], threshold);
    }
  }

  /** A "Stale PR" row names an open PR of the repository that is older than
      the threshold, and every such PR has one. */
  lemma StaleRowsExact(repo: string, prs: seq<PrInfo>, threshold: int, row: Row)
    ensures row in StaleRows(repo, prs, threshold) <==>
      exists pr :: pr in prs && pr.daysOld > threshold && row == StaleRowOf(repo, pr)
  {
    var kept := Filter(prs, IsStale(threshold));
    MapMembership(StaleRow(repo), kept, row);
    forall pr ensures pr in kept <==> pr in prs && pr.daysOld > threshold {
      FilterMembership(prs, IsStale(threshold), pr);
    }
  }

  /** A repository that contributes any row is one the scan flags as having
      issues (a stale PR is old; an orphan detail implies an orphan). */
  lemma RowsImplyIssues(org: string, r: RepoResult, threshold: int)
    requires Consistent(r)
    ensures |RepoRows(org, r, threshold)| > 0 ==> HasIssues(r, threshold)
  {
    var kept := Filter(r.openPrs, IsStale(threshold));
    if |kept| > 0 {
      FilterMembership(r.openPrs, IsStale(threshold), kept[0]);
      assert kept[0] in kept;
    }
    if |r.orphanedBranchDetails| > 0 {
      assert r.orphanedBranchDetails[0].name in r.staleBranches;
    }
  }

  /** `s[:n] if len(s) > n else s`. */
  function Truncate(s: string, n: nat): (r: string)
    ensures |r| <= n
    ensures r <= s
    ensures |s| <= n ==> r == s
    ensures |s| > n ==> |r| == n
  {
    if |s| > n then s[..n] else s
  }

  datatype Columns = Columns(repo: string, item: string, user: string)

  /** The three truncated cells of a printed table row (29, 24 and 19
      characters: one less than each column's width). */
  function TableColumns(row: Row): (c: Columns)
    ensures |c.repo| < 30 && |c.item| < 25 && |c.user| < 20
    ensures c.repo <= row.repo && c.item <= row.item && c.user <= row.user
    ensures |row.repo| <= 29 ==> c.repo == row.repo
    ensures |row.item| <= 24 ==> c.item == row.item
    ensures |row.user| <= 19 ==> c.user == row.user
  {
    Columns(Truncate(row.repo, 29), Truncate(row.item, 24), Truncate(row.user, 19))
  }

  /** The three truncated cells of a printed closed/merged row (29, 24 and 14
      characters). */
  function ClosedColumns(repoName: string, c: ClosedRecord): (cols: Columns)
    ensures |cols.repo| < 30 && |cols.item| < 25 && |cols.user| < 15
    ensures cols.repo <= repoName && cols.item <= c.branch && cols.user <= c.user
    ensures |repoName| <= 29 ==> cols.repo == repoName
    ensures |c.branch| <= 24 ==> cols.item == c.branch
    ensures |c.user| <= 14 ==> cols.user == c.user
  {
    Columns(Truncate(repoName, 29), Truncate(c.branch, 24), Truncate(c.user, 14))
  }
}
