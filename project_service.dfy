/**
 * ProjectService: the member-filtered project queries and the writes of the Projects and
 * ProjectUsers tables.
 */
module ProjectService {
  import opened Wrappers
  import opened Entities
  import opened Dtos
  import opened Membership
  import opened Data

  /** The filter of the project queries: an admin sees every project, anyone else only the
      projects with a ProjectUser row for them (`p.ProjectUsers.Any(pu => pu.UserId == userId)`). */
  predicate CanViewProject(db: Database, actor: Id, isAdmin: bool, id: Id)
    reads db
  {
    isAdmin || actor in MembersOf(db.projectUsers, id)
  }

  /** The ProjectResponseDto of a stored project. */
  function ToResponse(db: Database, id: Id): (r: ProjectResponseDto)
    reads db
    requires db.Valid() && id in db.projects
    ensures r.users.Keys == MembersOf(db.projectUsers, id)
  {
    var p := db.projects[id];
    ProjectResponseDto(id, p.name, p.description, p.createdDate,
      map u | u in MembersOf(db.projectUsers, id) :: db.users[u].username)
  }

  /** GetAllProjectsAsync: every project for an admin; for anyone else exactly the
      projects the actor is a member of. Each response lists the project's members. */
  function GetAllProjects(db: Database, actor: Id, isAdmin: bool): (r: map<Id, ProjectResponseDto>)
    reads db
    requires db.Valid()
    ensures isAdmin ==> r.Keys == db.projects.Keys
    ensures !isAdmin ==> forall id :: id in r <==> id in db.projects && actor in MembersOf(db.projectUsers, id)
    ensures forall id :: id in r ==> id in db.projects && r[id] == ToResponse(db, id)
    ensures forall id :: id in r ==> r[id].id == id && r[id].users.Keys == MembersOf(db.projectUsers, id)
  {
    map id | id in db.projects && CanViewProject(db, actor, isAdmin, id) :: ToResponse(db, id)
  }

  /** GetProjectByIdAsync: null when the project is absent, or when a non-admin actor is not
      one of its members; otherwise the same response the list gives for that project. */
  function GetProjectById(db: Database, id: Id, actor: Id, isAdmin: bool): (r: Option<ProjectResponseDto>)
    reads db
    requires db.Valid()
    ensures r.None? <==> id !in db.projects || (!isAdmin && actor !in MembersOf(db.projectUsers, id))
    ensures r.Some? ==> id in GetAllProjects(db, actor, isAdmin) && r.value == GetAllProjects(db, actor, isAdmin)[id]
  {
    if id in db.projects && CanViewProject(db, actor, isAdmin, id) then Some(ToResponse(db, id)) else None
  }

  /** CreateProjectAsync: a new project; its members are the requested ids that are users
      (none for a null or empty list). */
  method CreateProject(db: Database, dto: CreateProjectDto, now: Instant) returns (r: ProjectResponseDto)
    requires db.Valid()
    modifies db
    ensures db.Valid()
    ensures r.id == old(db.nextProjectId) && r.id !in old(db.projects)
    ensures db.projects == old(db.projects)[r.id := Project(dto.name, dto.description, now)]
    ensures db.projectUsers == old(db.projectUsers) + LinksTo(r.id, Requested(dto.userIds, old(db.users.Keys)))
    ensures MembersOf(db.projectUsers, r.id) == Requested(dto.userIds, db.users.Keys)
    ensures r == ToResponse(db, r.id)
    ensures db.nextProjectId == old(db.nextProjectId) + 1
    ensures unchanged(db`roles, db`users, db`tasks, db`taskUsers, db`smtpSettings)
    ensures unchanged(db`nextUserId, db`nextTaskId, db`nextSmtpSettingsId)
  {
    var id := db.nextProjectId;
    db.projects := db.projects[id := Project(dto.name, dto.description, now)];
    db.nextProjectId := id + 1;
    assert forall l :: l in db.projectUsers ==> l.owner != id;
    db.projectUsers := Attach(db.projectUsers, id, dto.userIds, db.users.Keys);
    r := ToResponse(db, id);
  }

  /** UpdateProjectAsync: null for an absent id; otherwise Name and Description are
      overwritten and the members are replaced when a list is given. */
  method UpdateProject(db: Database, id: Id, dto: UpdateProjectDto) returns (r: Option<ProjectResponseDto>)
    requires db.Valid()
    modifies db
    ensures db.Valid()
    ensures id !in old(db.projects) ==> r == None && unchanged(db)
    ensures id in old(db.projects) ==>
      && db.projects == old(db.projects)[id := old(db.projects)[id].(name := dto.name, description := dto.description)]
      && db.projectUsers == Replace(old(db.projectUsers), id, dto.userIds, old(db.users.Keys))
      && r == Some(ToResponse(db, id))
    ensures unchanged(db`roles, db`users, db`tasks, db`taskUsers, db`smtpSettings)
    ensures unchanged(db`nextUserId, db`nextProjectId, db`nextTaskId, db`nextSmtpSettingsId)
  {
    if id !in db.projects {
      return None;
    }
    db.projects := db.projects[id := db.projects[id].(name := dto.name, description := dto.description)];
    db.projectUsers := Replace(db.projectUsers, id, dto.userIds, db.users.Keys);
    r := Some(ToResponse(db, id));
  }

  /** The tasks that survive the deletion of project `id` (TaskItem.ProjectId cascades). */
  function TasksOutside(tasks: map<Id, TaskItem>, id: Id): (r: map<Id, TaskItem>)
    ensures forall t :: t in r <==> t in tasks && tasks[t].projectId != id
    ensures forall t :: t in r ==> r[t] == tasks[t]
  {
    map t | t in tasks && tasks[t].projectId != id :: tasks[t]
  }

  /** DeleteProjectAsync: false for an absent id; otherwise the project goes, and with it,
      by cascade, its tasks, its ProjectUser rows and the TaskUser rows of those tasks. */
  method DeleteProject(db: Database, id: Id) returns (deleted: bool)
    requires db.Valid()
    modifies db
    ensures db.Valid()
    ensures deleted == (id in old(db.projects))
    ensures !deleted ==> unchanged(db)
    ensures deleted ==>
      && db.projects == old(db.projects) - {id}
      && db.tasks == TasksOutside(old(db.tasks), id)
      && db.projectUsers == Unlink(old(db.projectUsers), id)
      && db.taskUsers == OwnedBy(old(db.taskUsers), db.tasks.Keys)
    ensures unchanged(db`roles, db`users, db`smtpSettings)
    ensures unchanged(db`nextUserId, db`nextProjectId, db`nextTaskId, db`nextSmtpSettingsId)
  {
    if id !in db.projects {
      return false;
    }
    db.projects := db.projects - {id};
    db.tasks := TasksOutside(db.tasks, id);
    db.projectUsers := Unlink(db.projectUsers, id);
    db.taskUsers := OwnedBy(db.taskUsers, db.tasks.Keys);
    deleted := true;
  }
}
