/**
 * The `repositories` and `issues` tables (app/db/models.py): one record type
 * per table, the column defaults a freshly built row receives, and the
 * snapshot of both tables with the invariants every operation keeps.
 */
module Models {
  import opened Wrappers

  /** A row of `repositories`. */
  datatype Repository = Repository(
    id: nat,
    name: string,
    description: Option<string>,
    isVisible: bool,
    issuesCount: int)

  /** A row of `issues`; `state` is true for an open issue. */
  datatype Issue = Issue(
    id: nat,
    number: int,
    title: string,
    state: bool,
    cumulativeBounty: int,
    repositoryId: nat,
    repositoryName: Option<string>,
    url: string)

  /**
   * `Repositories(name=...)` once inserted under primary key `id`: no
   * description, visible, no issues counted.
   */
  function NewRepository(id: nat, name: string): (r: Repository)
    ensures r.id == id && r.name == name
    ensures r.description == None && r.isVisible && r.issuesCount == 0
  {
    Repository(id, name, None, true, 0)
  }

  /**
   * `Issues(title=..., repository_id=..., number=..., url=...)` once inserted
   * under primary key `id`: the omitted columns take their defaults, so the
   * issue starts closed with no bounty, and a missing `number` becomes 0.
   */
  function NewIssue(id: nat, title: string, repositoryId: nat, number: Option<int>, url: string): (r: Issue)
    ensures r.id == id && r.title == title && r.repositoryId == repositoryId && r.url == url
    ensures !r.state && r.cumulativeBounty == 0 && r.repositoryName == None
    ensures r.number == (if number.Some? then number.value else 0)
  {
    var n := match number case Some(k) => k case None => 0;
    Issue(id, n, title, false, 0, repositoryId, None, url)
  }

  /** The contents of both tables at one moment; rows in insertion order. */
  datatype Tables = Tables(repositories: seq<Repository>, issues: seq<Issue>) {

    /**
     * Primary keys are handed out in insertion order from 1 and rows are never
     * deleted, so the row at position i has id i + 1; and the foreign key
     * `issues.repository_id -> repositories.id` always resolves.
     */
    predicate Valid() {
      && (forall i :: 0 <= i < |repositories| ==> repositories[i].id == i + 1)
      && (forall j :: 0 <= j < |issues| ==> issues[j].id == j + 1)
      && (forall j :: 0 <= j < |issues| ==> 1 <= issues[j].repositoryId <= |repositories|)
    }

    predicate BountiesNonNegative() {
      forall j :: 0 <= j < |issues| ==> issues[j].cumulativeBounty >= 0
    }
  }

  /** In a valid snapshot every issue's repository id names an existing repository row. */
  lemma ForeignKeyResolves(t: Tables, j: nat)
    requires t.Valid() && j < |t.issues|
    ensures exists i :: 0 <= i < |t.repositories| && t.repositories[i].id == t.issues[j].repositoryId
  {
    var i := t.issues[j].repositoryId - 1;
    assert t.repositories[i].id == t.issues[j].repositoryId;
  }

  /** Rewriting columns of one issue other than its id and repository id keeps the snapshot valid. */
  lemma ValidAfterRowUpdate(t: Tables, row: nat, issue: Issue)
    requires t.Valid() && row < |t.issues|
    requires issue.id == t.issues[row].id && issue.repositoryId == t.issues[row].repositoryId
    ensures t.(issues := t.issues[row := issue]).Valid()
  {
  }
}
