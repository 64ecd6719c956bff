/**
 * DashboardService: counts over the same filters as the project and task lists.
 */
module DashboardService {
  import opened Wrappers
  import opened Entities
  import opened Dtos
  import opened Membership
  import opened Data
  import ProjectService
  import TaskService

  /** The tasks of `ids` with the given status. */
  function WithStatus(db: Database, ids: set<Id>, status: TaskItemStatus): (r: set<Id>)
    reads db
    requires ids <= db.tasks.Keys
    ensures r <= ids
    ensures forall id :: id in r <==> id in ids && db.tasks[id].status == status
  {
    set id | id in ids && db.tasks[id].status == status
  }

  /** Every task is Todo, InProgress or Done, so the Done tasks and the Todo-or-InProgress
      tasks of a set split it: the two counts add up to the set's size. */
  lemma {:induction false} StatusPartition(db: Database, ids: set<Id>)
    requires ids <= db.tasks.Keys
    ensures |WithStatus(db, ids, Done)| + |WithStatus(db, ids, Todo) + WithStatus(db, ids, InProgress)| == |ids|
  {
    var done := WithStatus(db, ids, Done);
    var pending := WithStatus(db, ids, Todo) + WithStatus(db, ids, InProgress);
    assert done * pending == {};
    assert done + pending == ids;
    assert WithStatus(db, ids, Todo) * WithStatus(db, ids, InProgress) == {};
  }

  /** The dashboard's own project query (`projectsQuery`). */
  function DashboardProjects(db: Database, actor: Id, isAdmin: bool): set<Id>
    reads db
  {
    set p | p in db.projects && (isAdmin || actor in MembersOf(db.projectUsers, p))
  }

  /** The dashboard's own task query (`tasksQuery`). */
  function DashboardTasks(db: Database, actor: Id, isAdmin: bool): (r: set<Id>)
    reads db
    ensures r <= db.tasks.Keys
  {
    set t | t in db.tasks && TaskService.CanViewTask(db, actor, isAdmin, t)
  }

  /** The dashboard's project filter selects exactly the projects of the project list. */
  lemma ProjectsAgree(db: Database, actor: Id, isAdmin: bool)
    requires db.Valid()
    ensures DashboardProjects(db, actor, isAdmin) == ProjectService.GetAllProjects(db, actor, isAdmin).Keys
  {
    var a := DashboardProjects(db, actor, isAdmin);
    var b := ProjectService.GetAllProjects(db, actor, isAdmin);
    forall p ensures p in a <==> p in b {
      assert p in b <==> p in db.projects && ProjectService.CanViewProject(db, actor, isAdmin, p);
    }
  }

  /** The dashboard's task filter selects exactly the tasks of the unfiltered task list. */
  lemma TasksAgree(db: Database, actor: Id, isAdmin: bool)
    requires db.Valid()
    ensures DashboardTasks(db, actor, isAdmin) == TaskService.GetAllTasks(db, actor, isAdmin, None).Keys
  {
  }

  /** GetDashboardStatsAsync. TotalProjects and TotalTasks are the sizes of the lists the
      actor gets from GetAllProjectsAsync and GetAllTasksAsync (no project filter);
      CompletedTasks and PendingTasks split TotalTasks by status; TotalUsers is the size
      of the Users table for an admin and 0 for anyone else. */
  function GetDashboardStats(db: Database, actor: Id, isAdmin: bool): (r: DashboardDto)
    reads db
    requires db.Valid()
    ensures r.totalProjects == |ProjectService.GetAllProjects(db, actor, isAdmin)|
    ensures r.totalTasks == |TaskService.GetAllTasks(db, actor, isAdmin, None)|
    ensures r.completedTasks == |WithStatus(db, TaskService.GetAllTasks(db, actor, isAdmin, None).Keys, Done)|
    ensures r.pendingTasks == |WithStatus(db, TaskService.GetAllTasks(db, actor, isAdmin, None).Keys, Todo)
                              + WithStatus(db, TaskService.GetAllTasks(db, actor, isAdmin, None).Keys, InProgress)|
    ensures r.completedTasks + r.pendingTasks == r.totalTasks
    ensures r.completedTasks <= r.totalTasks && r.pendingTasks <= r.totalTasks
    ensures r.totalUsers == if isAdmin then |db.users| else 0
  {
    var tasks := DashboardTasks(db, actor, isAdmin);
    ProjectsAgree(db, actor, isAdmin);
    TasksAgree(db, actor, isAdmin);
    StatusPartition(db, tasks);
    DashboardDto(|DashboardProjects(db, actor, isAdmin)|, |tasks|, |WithStatus(db, tasks, Done)|,
      |WithStatus(db, tasks, Todo) + WithStatus(db, tasks, InProgress)|, if isAdmin then |db.users| else 0)
  }
}
