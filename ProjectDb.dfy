/** `ProjectDbService`: the `Projects` table of the application database, with the queries
    and updates the service issues against it. */
module ProjectDb {
  import opened Outcomes
  import opened Strings

  /** A row of `Projects`. `CreationDate` is the `DateTime` as a tick count; a null
      `Description` is `None`. */
  datatype Project = Project(
    ProjectID: int,
    UserID: string,
    Name: string,
    Language: string,
    Description: Option<string>,
    CreationDate: int)

  /** LINQ `Where`: the elements that match, in their original order. */
  function Where(s: seq<Project>, matches: Project -> bool): (r: seq<Project>)
    ensures forall p :: multiset(r)[p] == (if matches(p) then multiset(s)[p] else 0)
    ensures forall i :: 0 <= i < |r| ==> matches(r[i])
  {
    if s == [] then []
    else
      assert s == [s[0]] + s[1..];
      (if matches(s[0]) then [s[0]] else []) + Where(s[1..], matches)
  }

  /** LINQ `FirstOrDefault`, with `None` for the default (null). */
  function FirstOrDefault(s: seq<Project>): Option<Project> {
    if s == [] then None else Some(s[0])
  }

  /** Ordered by `CreationDate`, newest first. */
  predicate NewestFirst(s: seq<Project>) {
    forall i, j :: 0 <= i < j < |s| ==> s[i].CreationDate >= s[j].CreationDate
  }

  function InsertNewestFirst(x: Project, s: seq<Project>): (r: seq<Project>)
    ensures multiset(r) == multiset{x} + multiset(s)
    ensures forall q :: q in r ==> q == x || q in s
  {
    if s == [] || x.CreationDate >= s[0].CreationDate then
      [x] + s
    else
      assert s == [s[0]] + s[1..];
      [s[0]] + InsertNewestFirst(x, s[1..])
  }

  /** Inserting into a newest-first sequence keeps it newest first. */
  lemma {:induction false} InsertKeepsNewestFirst(x: Project, s: seq<Project>)
    requires NewestFirst(s)
    ensures NewestFirst(InsertNewestFirst(x, s))
  {
    if s != [] && x.CreationDate < s[0].CreationDate {
      InsertKeepsNewestFirst(x, s[1..]);
      var rest := InsertNewestFirst(x, s[1..]);
      forall j | 0 <= j < |rest| ensures rest[j].CreationDate <= s[0].CreationDate {
        assert rest[j] in rest;
      }
      var r := [s[0]] + rest;
      assert forall j :: 1 <= j < |r| ==> r[j] == rest[j - 1];
    }
  }

  /** LINQ `OrderByDescending(p => p.CreationDate)`: a permutation, newest first. Rows
      with equal dates may come in any order, and the contract does not fix one. */
  function OrderByNewest(s: seq<Project>): (r: seq<Project>)
    ensures multiset(r) == multiset(s)
    ensures NewestFirst(r)
  {
    if s == [] then []
    else
      assert s == [s[0]] + s[1..];
      InsertKeepsNewestFirst(s[0], OrderByNewest(s[1..]));
      InsertNewestFirst(s[0], OrderByNewest(s[1..]))
  }

  class ProjectDbService {
    /** The table, keyed by `ProjectID`. */
    var projects: map<int, Project>
    /** The identity column's next value. */
    var nextId: int

    ghost predicate Valid()
      reads this
    {
      && nextId >= 1
      && forall id :: id in projects ==> projects[id].ProjectID == id && 1 <= id < nextId
    }

    /** A service over the database as the context finds it: the stored rows, each under
        its own positive id, and an identity column already past every id it handed out. */
    constructor (rows: map<int, Project>, identity: int)
      requires identity >= 1
      requires forall id :: id in rows ==> rows[id].ProjectID == id && 1 <= id < identity
      ensures Valid() && projects == rows && nextId == identity
    {
      projects := rows;
      nextId := identity;
    }

    /** The rows with an id below `k`, in id order. */
    function RowsBelow(k: int): seq<Project>
      reads this
      decreases k
    {
      if k <= 1 then []
      else RowsBelow(k - 1) + (if k - 1 in projects then [projects[k - 1]] else [])
    }

    /** The rows of the table as a query enumerates them. */
    function Rows(): seq<Project>
      reads this
    {
      RowsBelow(nextId)
    }

    /** Row `p` is stored in the table. */
    predicate Stored(p: Project)
      reads this
    {
      p.ProjectID in projects && projects[p.ProjectID] == p
    }

    /** The row `projectId` exists and belongs to `userId`: what the update and delete
        queries look for. */
    predicate Owned(userId: string, projectId: int)
      reads this
    {
      projectId in projects && projects[projectId].UserID == userId
    }

    lemma {:induction false} RowsBelowCount(k: int, p: Project)
      requires Valid()
      ensures multiset(RowsBelow(k))[p] == (if p.ProjectID < k && Stored(p) then 1 else 0)
      decreases k
    {
      if k > 1 {
        RowsBelowCount(k - 1, p);
      }
    }

    /** Enumerating the table yields every stored row exactly once and nothing else. */
    lemma RowsExactlyOnce()
      requires Valid()
      ensures forall p :: multiset(Rows())[p] == (if Stored(p) then 1 else 0)
    {
      forall p ensures multiset(Rows())[p] == (if Stored(p) then 1 else 0) {
        RowsBelowCount(nextId, p);
      }
    }

    /** `GetProjectById`: the row with that id, or `KeyNotFoundException`. */
    function GetProjectById(projectId: int): (r: Outcome<Project>)
      requires Valid()
      reads this
      ensures r.Normal? <==> projectId in projects
      ensures r.Normal? ==> r.value == projects[projectId]
      ensures r.Thrown? ==>
        r.error == KeyNotFoundException("Project with ID " + IntToString(projectId) + " was not found")
    {
      RowsExactlyOnce();
      var matching := Where(Rows(), (p: Project) => p.ProjectID == projectId);
      assert projectId in projects ==> multiset(matching)[projects[projectId]] == 1;
      assert matching != [] ==> matching[0] in multiset(matching);
      match FirstOrDefault(matching)
      case None => Thrown(KeyNotFoundException("Project with ID " + IntToString(projectId) + " was not found"))
      case Some(project) => Normal(project)
    }

    /** `IsProjectOwnedByUser`: whether the stored row's `UserID` is `userId`; a missing id
        throws as `GetProjectById` does. */
    function IsProjectOwnedByUser(userId: string, projectId: int): (r: Outcome<bool>)
      requires Valid()
      reads this
      ensures r.Thrown? <==> projectId !in projects
      ensures r.Thrown? ==> r.error.KeyNotFoundException?
      ensures r.Normal? ==> (r.value <==> Owned(userId, projectId))
    {
      match GetProjectById(projectId)
      case Thrown(e) => Thrown(e)
      case Normal(project) => Normal(project.UserID == userId)
    }

    /** `GetProjectsByUserIdAsync`: every row of the user exactly once, newest first. */
    function GetProjectsByUserId(userId: string): (r: Outcome<seq<Project>>)
      requires Valid()
      reads this
      ensures r.Thrown? <==> IsNullOrWhiteSpace(userId)
      ensures r.Thrown? ==> r.error == ArgumentNullException("userId")
      ensures r.Normal? ==> NewestFirst(r.value)
      ensures r.Normal? ==> forall p :: multiset(r.value)[p] == (if Stored(p) && p.UserID == userId then 1 else 0)
    {
      if IsNullOrWhiteSpace(userId) then Thrown(ArgumentNullException("userId"))
      else
        RowsExactlyOnce();
        Normal(OrderByNewest(Where(Rows(), (p: Project) => p.UserID == userId)))
    }

    /** `CreateProjectInDatabaseAsync(userId, projectName, language, description)`, with `now`
        standing for `DateTime.UtcNow`. `language` is not checked. */
    method CreateProjectInDatabase(userId: string, projectName: string, language: string,
                                   description: Option<string>, now: int) returns (r: Outcome<int>)
      requires Valid()
      modifies this
      ensures Valid()
      ensures IsNullOrWhiteSpace(userId) ==>
        r == Thrown(ArgumentNullException("userId")) && projects == old(projects) && nextId == old(nextId)
      ensures !IsNullOrWhiteSpace(userId) && IsNullOrWhiteSpace(projectName) ==>
        r == Thrown(ArgumentNullException("projectName")) && projects == old(projects) && nextId == old(nextId)
      ensures !IsNullOrWhiteSpace(userId) && !IsNullOrWhiteSpace(projectName) ==>
        && r.Normal? && r.value >= 1 && r.value !in old(projects)
        && projects == old(projects)[r.value := Project(r.value, userId, projectName, language, description, now)]
        && nextId == old(nextId) + 1
    {
      if IsNullOrWhiteSpace(userId) {
        return Thrown(ArgumentNullException("userId"));
      }
      if IsNullOrWhiteSpace(projectName) {
        return Thrown(ArgumentNullException("projectName"));
      }
      var id := nextId;
      var project := Project(id, userId, projectName, language, description, now);
      projects := projects[id := project];
      nextId := nextId + 1;
      r := Normal(id);
    }

    /** `UpdateProjectNameInDatabaseAsync`: renames the row only when it belongs to `userId`;
        otherwise nothing happens and nothing is reported. */
    method UpdateProjectNameInDatabase(userId: string, projectId: int, newProjectName: string) returns (r: Outcome<Unit>)
      requires Valid()
      modifies this
      ensures Valid() && nextId == old(nextId)
      ensures IsNullOrWhiteSpace(userId) ==> r == Thrown(ArgumentNullException("userId")) && projects == old(projects)
      ensures !IsNullOrWhiteSpace(userId) ==> r == Normal(Unit)
      ensures !IsNullOrWhiteSpace(userId) && old(Owned(userId, projectId)) ==>
        projects == old(projects)[projectId := old(projects)[projectId].(Name := newProjectName)]
      ensures !old(Owned(userId, projectId)) ==> projects == old(projects)
    {
      if IsNullOrWhiteSpace(userId) {
        return Thrown(ArgumentNullException("userId"));
      }
      RowsExactlyOnce();
      var matching := Where(Rows(), (p: Project) => p.UserID == userId && p.ProjectID == projectId);
      assert Owned(userId, projectId) ==> multiset(matching)[projects[projectId]] == 1;
      assert matching != [] ==> matching[0] in multiset(matching);
      var project := FirstOrDefault(matching);
      if project.Some? {
        projects := projects[project.value.ProjectID := project.value.(Name := newProjectName)];
      }
      r := Normal(Unit);
    }

    /** `DeleteProjectFromDatabaseAsync`: 0 when the user's row was removed, 1 when there was
        no such row. */
    method DeleteProjectFromDatabase(userId: string, projectId: int) returns (r: Outcome<int>)
      requires Valid()
      modifies this
      ensures Valid() && nextId == old(nextId)
      ensures IsNullOrWhiteSpace(userId) ==> r == Thrown(ArgumentNullException("userId")) && projects == old(projects)
      ensures !IsNullOrWhiteSpace(userId) && old(Owned(userId, projectId)) ==>
        r == Normal(0) && projects == old(projects) - {projectId}
      ensures !IsNullOrWhiteSpace(userId) && !old(Owned(userId, projectId)) ==>
        r == Normal(1) && projects == old(projects)
    {
      if IsNullOrWhiteSpace(userId) {
        return Thrown(ArgumentNullException("userId"));
      }
      RowsExactlyOnce();
      var matching := Where(Rows(), (p: Project) => p.UserID == userId && p.ProjectID == projectId);
      assert Owned(userId, projectId) ==> multiset(matching)[projects[projectId]] == 1;
      assert matching != [] ==> matching[0] in multiset(matching);
      var project := FirstOrDefault(matching);
      if project.Some? {
        projects := projects - {project.value.ProjectID};
        return Normal(0);
      }
      r := Normal(1);
    }
  }
}
