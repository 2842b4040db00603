/**
 * The database session the crud functions of app/crud/repositories.py and
 * app/crud/issues.py work through, held in memory: the two tables as
 * sequences of rows that the operations below update. `db.add` appends a
 * row; `db.commit` has no further effect on this view.
 */
module Store {
  import opened Wrappers
  import opened Models
  import opened Payloads
  import opened RepositoriesCrud
  import opened IssuesCrud

  class Database {
    var repositories: seq<Repository>
    var issues: seq<Issue>

    constructor ()
      ensures repositories == [] && issues == []
      ensures Valid()
    {
      repositories := [];
      issues := [];
    }

    function Snapshot(): Tables
      reads this
    {
      Tables(repositories, issues)
    }

    predicate Valid()
      reads this
    {
      Snapshot().Valid()
    }

    /** check_repository_exists: the first repository with the name, if any. */
    function CheckRepositoryExists(repoName: string): (r: Option<Repository>)
      reads this
      ensures r.None? <==> forall i :: 0 <= i < |repositories| ==> repositories[i].name != repoName
      ensures r.Some? ==> r.value.name == repoName
      ensures r.Some? ==>
        FirstRepositoryNamed(repositories, repoName).Some? && r.value == repositories[FirstRepositoryNamed(repositories, repoName).value]
    {
      match FirstRepositoryNamed(repositories, repoName)
      case Some(i) => Some(repositories[i])
      case None => None
    }

    /** get_repository_by_name: the same query, read-only. */
    function GetRepositoryByName(repoName: string): (r: Option<Repository>)
      reads this
      ensures r.None? <==> forall i :: 0 <= i < |repositories| ==> repositories[i].name != repoName
      ensures r.Some? ==> r.value.name == repoName
      ensures r.Some? ==>
        FirstRepositoryNamed(repositories, repoName).Some? && r.value == repositories[FirstRepositoryNamed(repositories, repoName).value]
    {
      CheckRepositoryExists(repoName)
    }

    /**
     * get_repository_by_issue: resolve the repository named by the last
     * segment of the issue's `repository_url`, creating it when absent.
     */
    method GetRepositoryByIssue(issue: IssuePayload) returns (repo: Repository)
      requires Valid()
      modifies this
      ensures Valid()
      ensures RepositoryResolution(Snapshot(), repo)
        == ResolveRepository(old(Snapshot()), RepoNameFromUrl(issue.repositoryUrl))
      ensures issues == old(issues)
      ensures var found := old(CheckRepositoryExists(RepoNameFromUrl(issue.repositoryUrl)));
        found.Some? ==> repositories == old(repositories) && repo == found.value
      ensures var found := old(CheckRepositoryExists(RepoNameFromUrl(issue.repositoryUrl)));
        found.None? ==>
          && repo == NewRepository(|old(repositories)| + 1, RepoNameFromUrl(issue.repositoryUrl))
          && repositories == old(repositories) + [repo]
      ensures CheckRepositoryExists(RepoNameFromUrl(issue.repositoryUrl)) == Some(repo)
    {
      var repoName := RepoNameFromUrl(issue.repositoryUrl);
      var found := CheckRepositoryExists(repoName);
      if found.Some? {
        repo := found.value;
      } else {
        repo := NewRepository(|repositories| + 1, repoName);
        repositories := repositories + [repo];
      }
    }

    /** check_issue_exists: the row of the first issue of `repo` with the payload's number. */
    function CheckIssueExists(issue: IssuePayload, repo: Repository): (r: Option<nat>)
      reads this
      ensures r.Some? ==>
        r.value < |issues| && issues[r.value].repositoryId == repo.id && issues[r.value].number == issue.number
      ensures r.Some? ==> forall j :: 0 <= j < r.value ==>
        !(issues[j].repositoryId == repo.id && issues[j].number == issue.number)
      ensures r.None? <==> forall j :: 0 <= j < |issues| ==>
        !(issues[j].repositoryId == repo.id && issues[j].number == issue.number)
    {
      FirstIssueFor(issues, repo.id, issue.number)
    }

    /**
     * get_issue: resolve the repository, then return the row of the existing
     * issue with the payload's number, or append a new one built from the
     * payload.
     */
    method GetIssue(issue: IssuePayload) returns (row: nat)
      requires Valid()
      modifies this
      ensures Valid()
      ensures IssueResolution(Snapshot(), row) == ResolveIssue(old(Snapshot()), issue)
      ensures var found := old(LookupIssue(Snapshot(), RepoNameFromUrl(issue.repositoryUrl), issue.number));
        found.Some? ==> Snapshot() == old(Snapshot()) && row == found.value
      ensures var found := old(LookupIssue(Snapshot(), RepoNameFromUrl(issue.repositoryUrl), issue.number));
        found.None? ==>
          && row == |old(issues)|
          && issues == old(issues) + [NewIssue(row + 1, issue.title, old(ResolveRepository(Snapshot(), RepoNameFromUrl(issue.repositoryUrl))).repository.id, Some(issue.number), issue.htmlUrl)]
      ensures row < |issues| && LookupIssue(Snapshot(), RepoNameFromUrl(issue.repositoryUrl), issue.number) == Some(row)
    {
      var repoDb := GetRepositoryByIssue(issue);
      var found := CheckIssueExists(issue, repoDb);
      if found.Some? {
        row := found.value;
      } else {
        var issueDb := NewIssue(|issues| + 1, issue.title, repoDb.id, Some(issue.number), issue.htmlUrl);
        issues := issues + [issueDb];
        row := |issues| - 1;
      }
    }

    /**
     * bump_bounty_issue: add `bountyAmount` to the cumulative bounty of the
     * issue with the number in the repository with the name. The code reads
     * `repository.id` and `issue.cumulative_bounty` without checking that
     * either lookup found a row, so both must exist.
     */
    method BumpBountyIssue(repositoryName: string, number: int, bountyAmount: int)
      requires Valid()
      requires LookupIssue(Snapshot(), repositoryName, number).Some?
      modifies this
      ensures Valid()
      ensures Snapshot() == AddBounty(old(Snapshot()), old(LookupIssue(Snapshot(), repositoryName, number)).value, bountyAmount)
      ensures repositories == old(repositories)
      ensures old(Snapshot().BountiesNonNegative()) && bountyAmount >= 0 ==> Snapshot().BountiesNonNegative()
    {
      var repository := GetRepositoryByName(repositoryName);
      var row := FirstIssueFor(issues, repository.value.id, number).value;
      var issue := issues[row];
      issues := issues[row := issue.(cumulativeBounty := issue.cumulativeBounty + bountyAmount)];
    }
  }
}
