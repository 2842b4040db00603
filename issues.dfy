/**
 * Issue resolution, eligibility, state conversion and the bounty ledger
 * (app/crud/issues.py), stated on a snapshot of the tables.
 */
module IssuesCrud {
  import opened Wrappers
  import opened Models
  import opened Payloads
  import opened RepositoriesCrud

  /** The labels that make an issue eligible for a bounty. */
  const LabelWhitelist: seq<string> := ["confirmed"]

  /** `list(map(lambda label: label["name"], labels))` */
  function LabelNames(labels: seq<Label>): (names: seq<string>)
    ensures |names| == |labels|
    ensures forall i :: 0 <= i < |labels| ==> names[i] == labels[i].name
  {
    seq(|labels|, i requires 0 <= i < |labels| => labels[i].name)
  }

  /** `any(i in whitelist for i in names)`, taking the names front to back. */
  function AnyWhitelisted(names: seq<string>): (r: bool)
    ensures r <==> exists i :: 0 <= i < |names| && names[i] in LabelWhitelist
    decreases |names|
  {
    if |names| == 0 then false
    else names[0] in LabelWhitelist || AnyWhitelisted(names[1..])
  }

  /** is_eligible_for_bounty: some label is named "confirmed". */
  function IsEligibleForBounty(issue: IssuePayload): (r: bool)
    ensures r <==> exists i :: 0 <= i < |issue.labels| && issue.labels[i].name == "confirmed"
    ensures issue.labels == [] ==> !r
  {
    AnyWhitelisted(LabelNames(issue.labels))
  }

  /** issue_state_to_str */
  function IssueStateToStr(state: bool): (s: string)
    ensures s == "open" <==> state
    ensures s == "closed" <==> !state
  {
    if state then "open" else "closed"
  }

  /** issue_state_to_bool: only "open" is open; every other string is closed. */
  function IssueStateToBool(state: string): (b: bool)
    ensures b <==> state == "open"
  {
    state == "open"
  }

  /** Converting a stored state to its string and back gives the stored state. */
  lemma StateRoundTrip(b: bool)
    ensures IssueStateToBool(IssueStateToStr(b)) == b
  {
  }

  /** A state string survives the trip through the stored bool exactly when it is "open" or "closed". */
  lemma StateStringRoundTrip(s: string)
    ensures IssueStateToStr(IssueStateToBool(s)) == s <==> s == "open" || s == "closed"
    ensures IssueStateToBool(s) <==> s == "open"
  {
  }

  /**
   * `select(Issues).where(repository_id == ...).where(number == ...).first()`:
   * the position of the first issue with that repository id and number.
   */
  function FirstIssueFor(issues: seq<Issue>, repositoryId: nat, number: int): (r: Option<nat>)
    ensures r.Some? ==>
      r.value < |issues| && issues[r.value].repositoryId == repositoryId && issues[r.value].number == number
    ensures r.Some? ==> forall j :: 0 <= j < r.value ==>
      !(issues[j].repositoryId == repositoryId && issues[j].number == number)
    ensures r.None? <==> forall j :: 0 <= j < |issues| ==>
      !(issues[j].repositoryId == repositoryId && issues[j].number == number)
    decreases |issues|
  {
    if |issues| == 0 then None
    else if issues[0].repositoryId == repositoryId && issues[0].number == number then Some(0)
    else match FirstIssueFor(issues[1..], repositoryId, number)
      case None => None
      case Some(i) => Some(i + 1)
  }

  /** Two issue tables agree on the lookup key (repository id, number) row by row. */
  predicate SameKeys(s: seq<Issue>, s': seq<Issue>) {
    && |s| == |s'|
    && forall j :: 0 <= j < |s| ==> s[j].repositoryId == s'[j].repositoryId && s[j].number == s'[j].number
  }

  /** The lookup depends only on the keys, so writes to other columns never move it. */
  lemma FirstIssueForSameKeys(s: seq<Issue>, s': seq<Issue>, repositoryId: nat, number: int)
    requires SameKeys(s, s')
    ensures FirstIssueFor(s, repositoryId, number) == FirstIssueFor(s', repositoryId, number)
  {
    var r := FirstIssueFor(s, repositoryId, number);
    var r' := FirstIssueFor(s', repositoryId, number);
    if r.Some? && r'.Some? {
      assert !(r.value < r'.value) && !(r'.value < r.value);
    }
  }

  /** An issue appended under a key no row has is the first with that key. */
  lemma FirstIssueForAppended(issues: seq<Issue>, issue: Issue)
    requires FirstIssueFor(issues, issue.repositoryId, issue.number).None?
    ensures FirstIssueFor(issues + [issue], issue.repositoryId, issue.number) == Some(|issues|)
  {
    assert (issues + [issue])[|issues|] == issue;
  }

  /** What get_issue leaves behind and the row of the issue it returns. */
  datatype IssueResolution = IssueResolution(tables: Tables, row: nat)

  /**
   * get_issue on a snapshot: resolve the repository from `repository_url`,
   * then take the first issue of that repository with the payload's number,
   * or else append a new issue built from the payload's title, number and
   * `html_url` under the next id.
   */
  function ResolveIssue(t: Tables, p: IssuePayload): (r: IssueResolution)
    requires t.Valid()
    ensures r.tables.Valid()
    ensures r.tables.repositories == ResolveRepository(t, RepoNameFromUrl(p.repositoryUrl)).tables.repositories
    ensures r.row < |r.tables.issues|
    ensures var repo := ResolveRepository(t, RepoNameFromUrl(p.repositoryUrl)).repository;
      FirstIssueFor(r.tables.issues, repo.id, p.number) == Some(r.row)
    ensures var repo := ResolveRepository(t, RepoNameFromUrl(p.repositoryUrl)).repository;
      FirstIssueFor(t.issues, repo.id, p.number).Some? ==>
        r.tables.issues == t.issues && r.row == FirstIssueFor(t.issues, repo.id, p.number).value
    ensures var repo := ResolveRepository(t, RepoNameFromUrl(p.repositoryUrl)).repository;
      FirstIssueFor(t.issues, repo.id, p.number).None? ==>
        && r.row == |t.issues|
        && r.tables.issues == t.issues + [NewIssue(|t.issues| + 1, p.title, repo.id, Some(p.number), p.htmlUrl)]
    ensures var found := LookupIssue(t, RepoNameFromUrl(p.repositoryUrl), p.number);
      found.Some? ==> r == IssueResolution(t, found.value)
    ensures LookupIssue(r.tables, RepoNameFromUrl(p.repositoryUrl), p.number) == Some(r.row)
  {
    var name := RepoNameFromUrl(p.repositoryUrl);
    var resolved := ResolveRepository(t, name);
    var t1, repo := resolved.tables, resolved.repository;
    assert LookupIssue(t1, name, p.number) == FirstIssueFor(t1.issues, repo.id, p.number);
    match FirstIssueFor(t1.issues, repo.id, p.number)
    case Some(k) => IssueResolution(t1, k)
    case None =>
      var issue := NewIssue(|t1.issues| + 1, p.title, repo.id, Some(p.number), p.htmlUrl);
      FirstIssueForAppended(t1.issues, issue);
      var t2 := t1.(issues := t1.issues + [issue]);
      assert LookupIssue(t2, name, p.number) == Some(|t1.issues|);
      IssueResolution(t2, |t1.issues|)
  }

  /** get_issue adds at most one row to each table and never changes an existing row. */
  lemma ResolveIssueOnlyAppends(t: Tables, p: IssuePayload)
    requires t.Valid()
    ensures var r := ResolveIssue(t, p).tables;
      && |t.repositories| <= |r.repositories| <= |t.repositories| + 1
      && |t.issues| <= |r.issues| <= |t.issues| + 1
      && r.repositories[..|t.repositories|] == t.repositories
      && r.issues[..|t.issues|] == t.issues
  {
    var resolved := ResolveRepository(t, RepoNameFromUrl(p.repositoryUrl));
    ResolveRepositoryOnlyAppends(t, RepoNameFromUrl(p.repositoryUrl));
    if FirstIssueFor(t.issues, resolved.repository.id, p.number).None? {
      var issues := ResolveIssue(t, p).tables.issues;
      assert issues[..|t.issues|] == t.issues;
    }
  }

  /**
   * A repository created on the way has a fresh id that no issue refers to,
   * so the issue is created too.
   */
  lemma NewRepositoryMeansNewIssue(t: Tables, p: IssuePayload)
    requires t.Valid()
    requires FirstRepositoryNamed(t.repositories, RepoNameFromUrl(p.repositoryUrl)).None?
    ensures |ResolveIssue(t, p).tables.issues| == |t.issues| + 1
  {
    var repo := ResolveRepository(t, RepoNameFromUrl(p.repositoryUrl)).repository;
    assert FirstIssueFor(t.issues, repo.id, p.number).None?;
  }

  /** Delivering the same payload again resolves the same row and adds nothing. */
  lemma ResolveIssueIdempotent(t: Tables, p: IssuePayload)
    requires t.Valid()
    ensures ResolveIssue(ResolveIssue(t, p).tables, p) == ResolveIssue(t, p)
  {
    var name := RepoNameFromUrl(p.repositoryUrl);
    var r := ResolveIssue(t, p);
    ResolveRepositoryIdempotent(t, name);
    assert ResolveRepository(r.tables, name).tables == r.tables;
  }

  /** No two issue rows share a repository id and a number. */
  predicate UniqueKeys(issues: seq<Issue>) {
    forall i, j :: 0 <= i < j < |issues| ==>
      !(issues[i].repositoryId == issues[j].repositoryId && issues[i].number == issues[j].number)
  }

  /**
   * get_issue creates an issue only when none has the repository and the
   * number, so deliveries handled one at a time keep both repository names
   * and issue keys unique.
   */
  lemma ResolveIssueKeepsKeysUnique(t: Tables, p: IssuePayload)
    requires t.Valid() && UniqueNames(t.repositories) && UniqueKeys(t.issues)
    ensures UniqueNames(ResolveIssue(t, p).tables.repositories)
    ensures UniqueKeys(ResolveIssue(t, p).tables.issues)
  {
    var resolved := ResolveRepository(t, RepoNameFromUrl(p.repositoryUrl));
    ResolveRepositoryKeepsNamesUnique(t, RepoNameFromUrl(p.repositoryUrl));
    if FirstIssueFor(t.issues, resolved.repository.id, p.number).None? {
      AppendKeepsKeysUnique(t.issues, NewIssue(|t.issues| + 1, p.title, resolved.repository.id, Some(p.number), p.htmlUrl));
    }
  }

  /** Appending an issue under a key no row has keeps the keys unique. */
  lemma AppendKeepsKeysUnique(issues: seq<Issue>, issue: Issue)
    requires UniqueKeys(issues) && FirstIssueFor(issues, issue.repositoryId, issue.number).None?
    ensures UniqueKeys(issues + [issue])
  {
    var s := issues + [issue];
    forall i, j | 0 <= i < j < |s|
      ensures !(s[i].repositoryId == s[j].repositoryId && s[i].number == s[j].number)
    {
      assert s[i] == issues[i];
      if j < |issues| {
        assert s[j] == issues[j];
      }
    }
  }

  /** Writes that leave the keys alone keep them unique. */
  lemma SameKeysKeepUnique(s: seq<Issue>, s': seq<Issue>)
    requires SameKeys(s, s') && UniqueKeys(s)
    ensures UniqueKeys(s')
  {
  }

  /** With unique keys, the first issue with a row's keys is that row. */
  lemma UniqueKeyFound(issues: seq<Issue>, j: nat)
    requires UniqueKeys(issues) && j < |issues|
    ensures FirstIssueFor(issues, issues[j].repositoryId, issues[j].number) == Some(j)
  {
  }

  /**
   * The issue a repository name and an issue number designate: the first
   * issue with the number in the first repository with the name. This is the
   * row get_issue finds without creating anything, and the row
   * bump_bounty_issue updates; None where that code would find no row.
   */
  function LookupIssue(t: Tables, repositoryName: string, number: int): (r: Option<nat>)
    ensures r.Some? ==> r.value < |t.issues| && t.issues[r.value].number == number
    ensures r.Some? <==>
      && FirstRepositoryNamed(t.repositories, repositoryName).Some?
      && FirstIssueFor(t.issues, t.repositories[FirstRepositoryNamed(t.repositories, repositoryName).value].id, number).Some?
    ensures r.Some? ==>
      t.issues[r.value].repositoryId == t.repositories[FirstRepositoryNamed(t.repositories, repositoryName).value].id
    ensures r.Some? ==> forall j :: 0 <= j < r.value ==>
      !(t.issues[j].repositoryId == t.issues[r.value].repositoryId && t.issues[j].number == number)
  {
    match FirstRepositoryNamed(t.repositories, repositoryName)
    case None => None
    case Some(i) => FirstIssueFor(t.issues, t.repositories[i].id, number)
  }

  /** `issue.cumulative_bounty = issue.cumulative_bounty + bounty_amount` on one row. */
  function AddBounty(t: Tables, row: nat, amount: int): (r: Tables)
    requires row < |t.issues|
    ensures r.repositories == t.repositories && |r.issues| == |t.issues|
    ensures r.issues[row].cumulativeBounty == t.issues[row].cumulativeBounty + amount
    ensures r.issues[row] == t.issues[row].(cumulativeBounty := r.issues[row].cumulativeBounty)
    ensures forall j :: 0 <= j < |t.issues| && j != row ==> r.issues[j] == t.issues[j]
    ensures t.Valid() ==> r.Valid()
    ensures t.BountiesNonNegative() && amount >= 0 ==> r.BountiesNonNegative()
  {
    var issue := t.issues[row];
    t.(issues := t.issues[row := issue.(cumulativeBounty := issue.cumulativeBounty + amount)])
  }

  /** The lookup reads only repository names and issue keys, so tables that agree on those agree on it. */
  lemma LookupIssueSameKeys(t: Tables, t': Tables, repositoryName: string, number: int)
    requires t.repositories == t'.repositories && SameKeys(t.issues, t'.issues)
    ensures LookupIssue(t', repositoryName, number) == LookupIssue(t, repositoryName, number)
  {
    match FirstRepositoryNamed(t.repositories, repositoryName)
    case None =>
    case Some(i) => FirstIssueForSameKeys(t.issues, t'.issues, t.repositories[i].id, number);
  }

  /** A bump leaves the lookup keys alone, so the next bump finds the same row. */
  lemma LookupIssueStable(t: Tables, repositoryName: string, number: int, row: nat, amount: int)
    requires row < |t.issues|
    ensures LookupIssue(AddBounty(t, row, amount), repositoryName, number) == LookupIssue(t, repositoryName, number)
  {
    var t' := AddBounty(t, row, amount);
    assert SameKeys(t.issues, t'.issues);
    LookupIssueSameKeys(t, t', repositoryName, number);
  }

  /** Two bumps by `a` and then `b` land on the same issue and add `a + b`. */
  lemma BumpTwice(t: Tables, repositoryName: string, number: int, a: int, b: int)
    requires LookupIssue(t, repositoryName, number).Some?
    ensures var row := LookupIssue(t, repositoryName, number).value;
      var t1 := AddBounty(t, row, a);
      && LookupIssue(t1, repositoryName, number) == Some(row)
      && AddBounty(t1, row, b) == AddBounty(t, row, a + b)
      && AddBounty(t1, row, b).issues[row].cumulativeBounty == t.issues[row].cumulativeBounty + a + b
  {
    var row := LookupIssue(t, repositoryName, number).value;
    LookupIssueStable(t, repositoryName, number, row, a);
    var t1 := AddBounty(t, row, a);
    assert AddBounty(t1, row, b).issues == AddBounty(t, row, a + b).issues;
  }
}
