/**
 * Repository resolution (app/crud/repositories.py): the name taken from an
 * issue's `repository_url`, the first-match lookup by name, and the
 * get-or-create step, stated on a snapshot of the tables.
 */
module RepositoriesCrud {
  import opened Wrappers
  import opened Strings
  import opened Models

  /** `repository_url.split('/')[-1]` */
  function RepoNameFromUrl(url: string): (name: string)
    ensures '/' !in name
    ensures |name| <= |url| && url[|url| - |name|..] == name
    ensures |name| == |url| || url[|url| - |name| - 1] == '/'
  {
    LastPieceIsSuffix(url, '/');
    Last(Split(url, '/'))
  }

  /** The name is exactly the text after the last `/`, whatever precedes it. */
  lemma RepoNameAfterLastSlash(prefix: string, name: string)
    requires '/' !in name
    ensures RepoNameFromUrl(prefix + "/" + name) == name
  {
    var url := prefix + "/" + name;
    assert url[|url| - |name|..] == name;
    assert url[|url| - |name| - 1] == '/';
  }

  /** A URL without any `/` is its own repository name. */
  lemma RepoNameWithoutSlash(url: string)
    requires '/' !in url
    ensures RepoNameFromUrl(url) == url
  {
    SplitWithoutSeparator(url, '/');
  }

  /**
   * `select(Repositories).where(Repositories.name == name).first()`: the
   * position of the first row with that name. Names are not unique, so the
   * position of the first one matters.
   */
  function FirstRepositoryNamed(repos: seq<Repository>, name: string): (r: Option<nat>)
    ensures r.Some? ==> r.value < |repos| && repos[r.value].name == name
    ensures r.Some? ==> forall j :: 0 <= j < r.value ==> repos[j].name != name
    ensures r.None? <==> forall j :: 0 <= j < |repos| ==> repos[j].name != name
    decreases |repos|
  {
    if |repos| == 0 then None
    else if repos[0].name == name then Some(0)
    else match FirstRepositoryNamed(repos[1..], name)
      case None => None
      case Some(i) => Some(i + 1)
  }

  /** What get_repository_by_issue leaves behind and returns. */
  datatype RepositoryResolution = RepositoryResolution(tables: Tables, repository: Repository)

  /**
   * get_repository_by_issue on a snapshot: the first repository with the
   * name, or else a new row with that name appended under the next id.
   */
  function ResolveRepository(t: Tables, name: string): (r: RepositoryResolution)
    requires t.Valid()
    ensures r.tables.Valid() && r.tables.issues == t.issues
    ensures FirstRepositoryNamed(t.repositories, name).Some? ==>
      r.tables == t && r.repository == t.repositories[FirstRepositoryNamed(t.repositories, name).value]
    ensures FirstRepositoryNamed(t.repositories, name).None? ==>
      && r.repository == NewRepository(|t.repositories| + 1, name)
      && r.tables.repositories == t.repositories + [r.repository]
    ensures r.repository.name == name
    ensures FirstRepositoryNamed(r.tables.repositories, name).Some?
    ensures r.tables.repositories[FirstRepositoryNamed(r.tables.repositories, name).value] == r.repository
    ensures 1 <= r.repository.id <= |r.tables.repositories|
  {
    match FirstRepositoryNamed(t.repositories, name)
    case Some(i) => RepositoryResolution(t, t.repositories[i])
    case None =>
      var repo := NewRepository(|t.repositories| + 1, name);
      assert (t.repositories + [repo])[|t.repositories|] == repo;
      RepositoryResolution(t.(repositories := t.repositories + [repo]), repo)
  }

  /** Resolving the same name again finds the row resolved the first time and adds nothing. */
  lemma ResolveRepositoryIdempotent(t: Tables, name: string)
    requires t.Valid()
    ensures ResolveRepository(ResolveRepository(t, name).tables, name) == ResolveRepository(t, name)
  {
  }

  /** get_repository_by_issue adds at most one repository and never changes an existing one. */
  lemma ResolveRepositoryOnlyAppends(t: Tables, name: string)
    requires t.Valid()
    ensures var r := ResolveRepository(t, name).tables.repositories;
      && |t.repositories| <= |r| <= |t.repositories| + 1
      && r[..|t.repositories|] == t.repositories
  {
    if FirstRepositoryNamed(t.repositories, name).None? {
      var r := ResolveRepository(t, name).tables.repositories;
      assert r[..|t.repositories|] == t.repositories;
    }
  }

  /** No two repository rows share a name. */
  predicate UniqueNames(repos: seq<Repository>) {
    forall i, j :: 0 <= i < j < |repos| ==> repos[i].name != repos[j].name
  }

  /**
   * Get-or-create appends a name only when no row has it, so deliveries
   * handled one at a time keep repository names unique.
   */
  lemma ResolveRepositoryKeepsNamesUnique(t: Tables, name: string)
    requires t.Valid() && UniqueNames(t.repositories)
    ensures UniqueNames(ResolveRepository(t, name).tables.repositories)
  {
  }

  /** With unique names, the first row with a row's name is that row. */
  lemma UniqueNameFound(repos: seq<Repository>, i: nat)
    requires UniqueNames(repos) && i < |repos|
    ensures FirstRepositoryNamed(repos, repos[i].name) == Some(i)
  {
  }
}
