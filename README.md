# github-scanner: branch and pull-request classification, in Dafny

This project is a Dafny model of the decision logic of `scanner.py`. That
script audits the repositories of a GitHub organisation. For each repository
it lists the open pull requests, oldest first. It finds "orphaned" branches:
branches that no open PR uses and that are neither the default branch nor
protected. It also lists closed or merged PRs whose branch still exists.
The model proves properties of each of these steps.

Every network response is a plain input value: branch lists, PR lists, the
default branch, the protected set and the commit-author lookup. Timestamps
are whole seconds. The current time `now`, the age threshold and the
pretty-print flag are parameters.

Modules, one per concern of the script:

- `Base`: `Option`, order-preserving `Filter` and `Map` (Python's list
  comprehensions), and `Distinct`, with their lemmas.
- `GitHubData`: the fetched records (`Branch`, `PullRequest`), whole-day
  ages (`DaysSince`), and the `'Unknown'` fallback for a missing user.
- `PullRequestRefs`: head-ref sets (`get_open_pr_branches`,
  `get_all_pr_branches`), closed/merged records
  (`get_closed_merged_pr_branches`), and protected names.
- `RepoAnalysis`: `analyze_repo`. This covers the PR-info loop, branch
  names, the orphan set, surviving closed records, the stable oldest-first
  sort, the orphan-detail loop, and the result record.
- `Issues`: the "has issues" test (scanner.py lines 303-305 and 470-472),
  the summary's two running totals, and monotonicity.
- `TableReport`: `collect_table_rows` and the column truncation of
  `print_pretty_table`.
- `Pagination`: reading the next URL from a `Link` header.

Loops in the script are methods with loop invariants. Most are proved equal
to a specification function: `HeadRefs`, `ClosedMergedRecords`, `OpenPrInfo`,
`OrphanDetails`, `Tally`, `CollectTableRows` (with its two inner loops
`AppendStaleRows` and `AppendOrphanRows`) and `NextUrl`. `ProtectedNames` and
`ListOfSet` are characterised by membership. `AnalyzeRepo` has no loop of its
own. It ties each field of its result to these functions. The orphan order
comes from `ListOfSet`'s choice, so `stale_branches` is pinned by membership
and distinctness, not by equality. The orphan details are exactly `DetailsOf`
walked in the order of `stale_branches`, since the script walks the same set
object twice. Set
algebra, comprehensions, `sorted`, the has-issues test and truncation are
functions. Lemmas state their properties.

Modelling choices:

- Days are `(now - t) / 86400`. Dafny's division is Euclidean. With a
  positive divisor that equals floor division, which is what
  `timedelta.days` does. So an instant in the future gives a negative age,
  as in the script.
- Python iterates a set in an order it chooses. `ListOfSet` picks an
  arbitrary duplicate-free order of the orphan set. The orphan-detail loop
  walks that order, and `stale_branches` is that order. In the script both
  walk the same unchanged set object, so they see the same order.
- `sorted(..., key=days_old, reverse=True)` is stable. `SortByAge` is an
  insertion sort. It is proved to be a permutation, oldest first, and
  stable: among entries of equal age the input order is kept.
- `link.split('<')[1]` raises `IndexError` when the first segment naming
  `rel="next"` has no `<`. `make_request` catches only request exceptions,
  so that error would escape the fetch loop. The model returns `Malformed`
  for this case.
- The script fetches the open-PR list twice with the same URL: once in
  `get_open_prs` and once in `get_open_pr_branches`. The model takes one
  list, `openPrs`, and uses it for both.

## Model

| member | source | states |
|---|---|---|
| `GitHubData.HasHeadRef` | scanner.py:115 | the truthy `head.ref` test: the PR has a head ref and it is not the empty string (the same test as scanner.py lines 102 and 129) |
| `GitHubData.UserLogin` | scanner.py:142 | the PR's user login, or "Unknown" when the PR has no user (the same fallback as scanner.py line 203) |
| `GitHubData.DaysSince` | scanner.py:136 | the age is the whole number of days elapsed, rounded down: `d*86400 <= now - t < (d+1)*86400` |
| `PullRequestRefs.RefsOf` | scanner.py:114-116 | a ref is in the set iff some PR in the list has it as a non-empty head ref |
| `PullRequestRefs.HeadRefs` | scanner.py:109-118 | the set-building loop yields exactly the set of non-empty head refs of the list |
| `PullRequestRefs.RefsOfMembers` | scanner.py:114-116 | a ref is collected iff some PR of the list, wherever it stands, carries it as a non-empty head ref |
| `PullRequestRefs.RefsOfAllStates` | scanner.py:98-105 | for any list holding the open and the closed PRs (the same multiset, in any order), its refs are the open refs together with the closed refs |
| `PullRequestRefs.RecordOf` | scanner.py:129-146 | a record's branch is the PR's head ref and is non-empty; its number, URL and closing instant are the PR's; its status is merged iff `merged_at` is set; a missing user reads "Unknown"; its age is whole days since closing |
| `PullRequestRefs.ClosedRecordsOf` | scanner.py:128-146 | one record per PR that has a non-empty head ref and a `closed_at`, built by `RecordOf`, in list order |
| `PullRequestRefs.ClosedMergedRecords` | scanner.py:122-148 | the loop yields exactly `ClosedRecordsOf`, one record per reported PR, in list order |
| `PullRequestRefs.ClosedRecordsMembership` | scanner.py:128-134 | a record appears iff some PR has a non-empty head ref and a `closed_at` and that record is built from it |
| `PullRequestRefs.ClosedRecordsCount` | scanner.py:128-146 | there are exactly as many records as PRs with a head ref and a `closed_at` |
| `PullRequestRefs.ProtectedNames` | scanner.py:164-173 | a name is in the result iff some branch entry with that name is flagged protected |
| `RepoAnalysis.OpenPrInfo` | scanner.py:194-204 | one entry per open PR, in order, keeping number, URL and creation instant, with the age in whole days rounded down and "Unknown" for a missing user |
| `RepoAnalysis.BranchNames` | scanner.py:208 | a name is in the set iff some branch entry has it |
| `RepoAnalysis.Orphaned` | scanner.py:224-225 | orphans are existing branches; none is an open-PR head ref, the default branch or a protected branch; every other existing branch is an orphan |
| `RepoAnalysis.ExistingRecords` | scanner.py:217 | every kept record names an existing branch; each record for an existing branch keeps all its copies; records for missing branches are dropped |
| `RepoAnalysis.SortByAge` | scanner.py:243 | `sorted(pr_info, key=days_old, reverse=True)`: a stable insertion sort, oldest first; its lemmas below prove it a permutation, ordered and stable |
| `RepoAnalysis.SortByAgePermutes` | scanner.py:243 | the sorted PR list is a permutation of `pr_info` |
| `RepoAnalysis.SortByAgeOrdered` | scanner.py:243 | the sorted PR list is oldest first: `days_old` never increases |
| `RepoAnalysis.SortByAgeStable` | scanner.py:243 | for every age, the PRs of that age keep their original relative order |
| `RepoAnalysis.HasRecord` | scanner.py:232 | the skip test: some surviving closed/merged record names the branch |
| `RepoAnalysis.DetailsOf` | scanner.py:230-238 | the details the pretty loop builds while walking the orphan order: one `{name, author}` per branch with no closed/merged record, in walk order |
| `RepoAnalysis.DetailsMembership` | scanner.py:230-238 | a detail is listed iff its branch was walked, has no closed/merged record, and the detail carries that branch's author |
| `RepoAnalysis.DetailsDistinct` | scanner.py:230-238 | walking a list without repeats lists each branch at most once |
| `RepoAnalysis.OrphanDetails` | scanner.py:228-238 | with pretty printing off the list is empty; otherwise the loop yields exactly `DetailsOf` on the walked order |
| `RepoAnalysis.ListOfSet` | scanner.py:246 | the list holds each element of the set exactly once |
| `RepoAnalysis.AnalyzeRepo` | scanner.py:188-249 | open PRs are a stable, oldest-first permutation of `pr_info`; `total_branches` is the branch-list length; `stale_branches` lists the orphan set without repeats, and its length equals both `branches_without_prs_count` and the orphan set's size; closed records are the existing-branch filter of the built records; details are empty without pretty printing, and otherwise are exactly `DetailsOf` walked in the order of `stale_branches`: the orphans without a closed record, each with its author, no name twice |
| `Issues.HasIssues` | scanner.py:303-305 | a repository has issues iff it has more than three open PRs, or an open PR older than the threshold, or an orphaned branch; the report's repository details (scanner.py lines 470-472) use the same test |
| `Issues.HasIssuesMonotone` | scanner.py:303-305 | more open PRs, older PRs, more orphans or a lower threshold never turn the has-issues test from true to false |
| `Issues.MorePrsKeepIssues` | scanner.py:303-305 | adding open PRs anywhere in the list, or orphans, keeps a repository flagged |
| `Issues.OlderPrsKeepIssues` | scanner.py:304 | ageing the open PRs keeps a repository flagged |
| `Issues.OldestDecidesAge` | scanner.py:303-305 | on an oldest-first list, the test is true iff there are more than three PRs, or the first PR is older than the threshold, or there is an orphan |
| `Issues.TotalOpenPrs` | scanner.py:300 | `total_open_prs`: the sum of the open-PR counts of the results |
| `Issues.IssueCount` | scanner.py:307-308 | `repos_with_issues`: the number of results that pass the has-issues test |
| `Issues.Tally` | scanner.py:296-308 | the scan loop's totals are the sum of open-PR counts and the number of repositories with issues |
| `Issues.IssueCountMatchesDetails` | scanner.py:469-474 | the summary's repos-with-issues count equals the number of repositories the report details, and is at most the number of repositories |
| `TableReport.RowsOf` | scanner.py:365-395 | the table rows, repository by repository in scan order: the stale-PR rows, then the orphan rows |
| `TableReport.CollectTableRows` | scanner.py:365-395 | the rows are, repository by repository, one "Stale PR" row per PR older than the threshold, then one "Orphaned Branch" row per orphan detail |
| `TableReport.StaleRowOf` | scanner.py:375-382 | the "Stale PR" row: the repository, "PR #" and the number, the PR's URL and user, and the age followed by " days" |
| `TableReport.OrphanRowOf` | scanner.py:386-393 | the "Orphaned Branch" row: the repository, the branch name, the link `https://github.com/<org>/<repo>/tree/<name>`, the author, and "-" for the age |
| `TableReport.AppendStaleRows` | scanner.py:373-382 | the loop over a repository's open PRs appends exactly one "Stale PR" row, formatted as the script does, per PR older than the threshold, in list order |
| `TableReport.AppendOrphanRows` | scanner.py:385-393 | the loop over a repository's orphan details appends exactly one "Orphaned Branch" row per detail, linking to the branch's tree, in list order |
| `TableReport.RowsCount` | scanner.py:369-393 | the row count is the sum, over repositories, of stale open PRs plus orphan details |
| `TableReport.StaleRowsExact` | scanner.py:373-382 | a "Stale PR" row appears iff it is built from an open PR of that repository older than the threshold |
| `TableReport.RowsImplyIssues` | scanner.py:372-393 | for a consistent analysis result, a repository that contributes any row passes the has-issues test |
| `TableReport.Truncate` | scanner.py:505 | the result has at most N characters and is a prefix of the input; it equals the input when the input has at most N characters, and has exactly N characters otherwise |
| `TableReport.TableColumns` | scanner.py:505-507 | the repository, item and user cells are prefixes of at most 29, 24 and 19 characters, each equal to its input when the input fits |
| `TableReport.ClosedColumns` | scanner.py:527-529 | the repository, branch and user cells are prefixes of at most 29, 24 and 14 characters, each equal to its input when the input fits |
| `Pagination.Split` | scanner.py:41 | `s.split(sep)` for one character: at least one piece, none containing the separator; `JoinSplit` and `SplitJoin` below pin it down |
| `Pagination.Contains` | scanner.py:42 | `'rel="next"' in link`: the pattern occurs at some position of the segment |
| `Pagination.JoinSplit` | scanner.py:41 | joining the comma-split segments gives back the header |
| `Pagination.SplitJoin` | scanner.py:41 | splitting a join of separator-free pieces gives back the pieces |
| `Pagination.UrlOf` | scanner.py:43 | the text after the segment's first `<` up to the next `<` or `>`; a segment without `<` has no second piece and reads as `Malformed` |
| `Pagination.FirstNext` | scanner.py:40-44 | the result of the first segment naming `rel="next"`, or no next page when none does; later segments are not looked at |
| `Pagination.NextLinkOf` | scanner.py:38-44 | the whole step: an empty or missing `Link` header means no next page; otherwise `FirstNext` of the comma-split segments |
| `Pagination.NextUrl` | scanner.py:38-44 | the segment walk with early `break` yields exactly `NextLinkOf` of the header |
| `Pagination.UrlOfCharacterized` | scanner.py:43 | a segment gives an error iff it has no `<`; otherwise the URL is the text after its first `<`, up to the next `<` or `>` or the end |
| `Pagination.NextLinkFirstMatch` | scanner.py:40-44 | there is no next page iff no segment contains `rel="next"`; otherwise the result comes from the first segment that does |

## Left out

- HTTP and pagination. All `requests.get` calls are left out, with their
  timeouts and error swallowing. This covers `make_request`'s `while url`
  loop, `get_single_repo`, `get_org_repos`, `check_recent_activity`, the
  default-branch lookup (and its `'main'` fallback) and the
  last-commit-author lookup (and its `'Unknown'` fallback). Their results
  are inputs; the author lookup is the function parameter `authorOf`.
  Reason: network I/O.
- Active-repository filtering (`check_recent_activity`, the one-year window
  set in `__init__`). The model takes the analysed repositories as given.
  Reason: it depends only on a network call.
- Clock and date text. `datetime.now()`, `strptime` and `strftime` are left
  out. Parsed instants are integers, and the `"%Y-%m-%d"` strings are kept
  as those instants. The script calls `datetime.now()` separately for each
  PR; the model uses one `now`. The script also compares local `now` with
  timestamps parsed from UTC strings as if they were local; the model
  assumes one common clock.
- Output. Console printing, padding, progress lines, Markdown and JSON
  writing, emoji, `.title()` status text and `os.makedirs` are left out.
  Only the truncation step of `print_pretty_table` is modelled.
- Startup. `main`'s argument parsing, environment variables, `sys.exit`
  and the scan's "no repositories" exit are left out. The threshold and the
  pretty flag are parameters.
- A `KeyError` from a PR missing `number`, `html_url` or `created_at`, or a
  user object without `login`, is not modelled. The model assumes fetched
  PRs carry these fields.
- `ExistingRecords`: the records' order is fixed by their definition as an
  order-preserving filter. The contract states membership and the count of
  each record, not order.
