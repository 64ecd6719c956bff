/**
 * TaskService: the visibility-filtered task queries and the writes of the TaskItems and
 * TaskUsers tables. As in the source, create, update and delete take no actor and check
 * no access; only the queries filter.
 */
module TaskService {
  import opened Wrappers
  import opened Entities
  import opened Dtos
  import opened Membership
  import opened Data

  /** The filter of the task queries: an admin sees every task; anyone else the tasks they
      are assigned to and the tasks of the projects they are a member of. */
  predicate CanViewTask(db: Database, actor: Id, isAdmin: bool, id: Id)
    reads db
    requires id in db.tasks
  {
    || isAdmin
    || actor in MembersOf(db.taskUsers, id)
    || actor in MembersOf(db.projectUsers, db.tasks[id].projectId)
  }

  /** The TaskResponseDto of a stored task. */
  function ToResponse(db: Database, id: Id): (r: TaskResponseDto)
    reads db
    requires db.Valid() && id in db.tasks
    ensures r.assignedUsers.Keys == MembersOf(db.taskUsers, id)
  {
    var t := db.tasks[id];
    TaskResponseDto(id, t.title, t.description, t.status, t.priority,
      map u | u in MembersOf(db.taskUsers, id) :: db.users[u].username,
      t.projectId, db.projects[t.projectId].name, t.createdDate)
  }

  /** GetAllTasksAsync. The project filter and the visibility filter are both applied:
      with a project id every task returned is in that project; a non-admin gets only the
      tasks they are assigned to or whose project they belong to; nothing that passes both
      filters is missing. */
  function GetAllTasks(db: Database, actor: Id, isAdmin: bool, projectId: Option<Id>): (r: map<Id, TaskResponseDto>)
    reads db
    requires db.Valid()
    ensures forall id :: id in r ==> id in db.tasks && r[id] == ToResponse(db, id) && r[id].id == id
    ensures projectId.Some? ==> forall id :: id in r ==> r[id].projectId == projectId.value
    ensures !isAdmin ==> forall id :: id in r ==>
              actor in r[id].assignedUsers || actor in MembersOf(db.projectUsers, r[id].projectId)
    ensures forall id :: (id in db.tasks && (projectId.None? || db.tasks[id].projectId == projectId.value)
              && CanViewTask(db, actor, isAdmin, id)) ==> id in r
    ensures isAdmin && projectId.None? ==> r.Keys == db.tasks.Keys
  {
    map id | id in db.tasks && (projectId.None? || db.tasks[id].projectId == projectId.value)
               && CanViewTask(db, actor, isAdmin, id)
           :: ToResponse(db, id)
  }

  /** GetTaskByIdAsync: null exactly when the task is absent or a non-admin actor may not
      see it; otherwise the response the list gives for it. */
  function GetTaskById(db: Database, id: Id, actor: Id, isAdmin: bool): (r: Option<TaskResponseDto>)
    reads db
    requires db.Valid()
    ensures r.None? <==> id !in db.tasks || !CanViewTask(db, actor, isAdmin, id)
    ensures r.Some? ==> id in GetAllTasks(db, actor, isAdmin, None) && r.value == GetAllTasks(db, actor, isAdmin, None)[id]
  {
    if id in db.tasks && CanViewTask(db, actor, isAdmin, id) then Some(ToResponse(db, id)) else None
  }

  /** CreateTaskAsync: "Project not found." and no change for an absent project; otherwise
      a new task whose assignees are the requested ids that are users. */
  method CreateTask(db: Database, dto: CreateTaskDto, now: Instant) returns (r: Result<TaskResponseDto, ServiceError>)
    requires db.Valid()
    modifies db
    ensures db.Valid()
    ensures dto.projectId !in old(db.projects) ==> r == Failure(ProjectNotFound) && unchanged(db)
    ensures dto.projectId in old(db.projects) ==>
      var id := old(db.nextTaskId);
      && id !in old(db.tasks)
      && db.tasks == old(db.tasks)[id := TaskItem(dto.title, dto.description, dto.status, dto.priority, dto.projectId, now)]
      && db.taskUsers == old(db.taskUsers) + LinksTo(id, Requested(dto.assignedUserIds, old(db.users.Keys)))
      && MembersOf(db.taskUsers, id) == Requested(dto.assignedUserIds, db.users.Keys)
      && r == Success(ToResponse(db, id))
      && db.nextTaskId == id + 1
    ensures unchanged(db`roles, db`users, db`projects, db`projectUsers, db`smtpSettings)
    ensures unchanged(db`nextUserId, db`nextProjectId, db`nextSmtpSettingsId)
  {
    if dto.projectId !in db.projects {
      return Failure(ProjectNotFound);
    }
    var id := db.nextTaskId;
    db.tasks := db.tasks[id := TaskItem(dto.title, dto.description, dto.status, dto.priority, dto.projectId, now)];
    db.nextTaskId := id + 1;
    assert forall l :: l in db.taskUsers ==> l.owner != id;
    db.taskUsers := Attach(db.taskUsers, id, dto.assignedUserIds, db.users.Keys);
    r := Success(ToResponse(db, id));
  }

  /** UpdateTaskAsync: null (Success(None)) for an absent task; "Project not found." for an
      absent target project; in both cases nothing changes. Otherwise Title, Description,
      Status, Priority and ProjectId are overwritten and the assignees are replaced when a
      list is given. */
  method UpdateTask(db: Database, id: Id, dto: UpdateTaskDto) returns (r: Result<Option<TaskResponseDto>, ServiceError>)
    requires db.Valid()
    modifies db
    ensures db.Valid()
    ensures id !in old(db.tasks) ==> r == Success(None) && unchanged(db)
    ensures id in old(db.tasks) && dto.projectId !in old(db.projects) ==> r == Failure(ProjectNotFound) && unchanged(db)
    ensures id in old(db.tasks) && dto.projectId in old(db.projects) ==>
      && db.tasks == old(db.tasks)[id := old(db.tasks)[id].(title := dto.title, description := dto.description,
                       status := dto.status, priority := dto.priority, projectId := dto.projectId)]
      && db.taskUsers == Replace(old(db.taskUsers), id, dto.assignedUserIds, old(db.users.Keys))
      && r == Success(Some(ToResponse(db, id)))
    ensures unchanged(db`roles, db`users, db`projects, db`projectUsers, db`smtpSettings)
    ensures unchanged(db`nextUserId, db`nextProjectId, db`nextTaskId, db`nextSmtpSettingsId)
  {
    if id !in db.tasks {
      return Success(None);
    }
    if dto.projectId !in db.projects {
      return Failure(ProjectNotFound);
    }
    db.tasks := db.tasks[id := db.tasks[id].(title := dto.title, description := dto.description,
                  status := dto.status, priority := dto.priority, projectId := dto.projectId)];
    db.taskUsers := Replace(db.taskUsers, id, dto.assignedUserIds, db.users.Keys);
    r := Success(Some(ToResponse(db, id)));
  }

  /** DeleteTaskAsync: false and no change for an absent id; otherwise exactly that task
      goes, with its TaskUser rows. */
  method DeleteTask(db: Database, id: Id) returns (deleted: bool)
    requires db.Valid()
    modifies db
    ensures db.Valid()
    ensures deleted == (id in old(db.tasks))
    ensures !deleted ==> unchanged(db)
    ensures deleted ==> db.tasks == old(db.tasks) - {id} && db.taskUsers == Unlink(old(db.taskUsers), id)
    ensures unchanged(db`roles, db`users, db`projects, db`projectUsers, db`smtpSettings)
    ensures unchanged(db`nextUserId, db`nextProjectId, db`nextTaskId, db`nextSmtpSettingsId)
  {
    if id !in db.tasks {
      return false;
    }
    db.tasks := db.tasks - {id};
    db.taskUsers := Unlink(db.taskUsers, id);
    deleted := true;
  }
}
