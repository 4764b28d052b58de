/** The records the scanner receives from the hosting API, with every fetch
    replaced by a plain value. Instants are whole seconds on one clock; the
    current time is always a parameter. */
module GitHubData {
  import opened Base

  const SecondsPerDay: int := 86400

  /** What the scanner writes for a pull request whose user object is missing. */
  const UnknownUser: string := "Unknown"

  /** One entry of the branch list: its name and its protection flag. */
  datatype Branch = Branch(name: string, protected: bool)

  /** One entry of a pull-request list. The head ref, the user object (given
      here by its login), `closed_at` and `merged_at` may each be absent in
      the fetched JSON; the timestamps are already parsed to seconds. */
  datatype PullRequest = PullRequest(
    number: int,
    htmlUrl: string,
    headRef: Option<string>,
    user: Option<string>,
    createdAt: int,
    closedAt: Option<int>,
    mergedAt: Option<int>)

  /** Whole days from `t` to `now`, rounded down as a time difference's
      `.days` is (negative when `t` lies in the future). */
  function DaysSince(now: int, t: int): (d: int)
    ensures d * SecondsPerDay <= now - t < (d + 1) * SecondsPerDay
  {
    (now - t) / SecondsPerDay
  }

  /** `pr.get('head', {}).get('ref')` is truthy: present and not empty. */
  predicate HasHeadRef(pr: PullRequest)
  {
    pr.headRef.Some? && pr.headRef.value != ""
  }

  /** The author column: the user's login, or "Unknown" without a user object. */
  function UserLogin(pr: PullRequest): string
  {
    if pr.user.Some? then pr.user.value else UnknownUser
  }
}
