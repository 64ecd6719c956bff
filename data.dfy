/**
 * ApplicationDbContext as an in-memory store: one field per table. Each service call is
 * one atomic change of these fields (EF Core's SaveChangesAsync and its transaction give
 * that atomicity in the source). The identity columns are the `next*Id` counters.
 */
module Data {
  import opened Wrappers
  import opened Entities

  /** No two users share an e-mail address (Register, CreateUserAsync and UpdateUserAsync
      check this before writing; the schema has no unique index). */
  predicate EmailsUnique(users: map<Id, User>) {
    forall a, b :: a in users && b in users && users[a].email == users[b].email ==> a == b
  }

  /** `Users.FirstOrDefaultAsync(u => u.Email == email) != null`. */
  predicate EmailTaken(users: map<Id, User>, email: string) {
    exists u :: u in users && users[u].email == email
  }

  /** `Users.FirstOrDefaultAsync(u => u.Email == email)` on a table with unique e-mail
      addresses: the one user with that address, if there is one. */
  function UserWithEmail(users: map<Id, User>, email: string): (r: Option<Id>)
    requires EmailsUnique(users)
    ensures r.None? <==> !EmailTaken(users, email)
    ensures forall id :: id in users && users[id].email == email ==> r == Some(id)
  {
    if EmailTaken(users, email) then
      var id :| id in users && users[id].email == email; Some(id)
    else None
  }

  predicate SmtpIdsUnique(rows: seq<SmtpSettings>) {
    forall i, j :: 0 <= i < j < |rows| ==> rows[i].id != rows[j].id
  }

  class Database {
    var roles: map<Id, Role>
    var users: map<Id, User>
    var projects: map<Id, Project>
    var tasks: map<Id, TaskItem>
    var projectUsers: set<Link>
    var taskUsers: set<Link>
    /** The SmtpSettings table in insertion order. */
    var smtpSettings: seq<SmtpSettings>
    var nextUserId: Id
    var nextProjectId: Id
    var nextTaskId: Id
    var nextSmtpSettingsId: Id

    /** The integrity the schema and the services keep: every foreign key refers to an
        existing row (User.RoleId, TaskItem.ProjectId and both sides of each join row),
        e-mail addresses are unique, and ids are positive and below their counters. */
    ghost predicate Valid()
      reads this
    {
      && 0 < nextUserId && 0 < nextProjectId && 0 < nextTaskId && 0 < nextSmtpSettingsId
      && (forall u :: u in users ==> 0 < u < nextUserId && users[u].roleId in roles)
      && EmailsUnique(users)
      && (forall p :: p in projects ==> 0 < p < nextProjectId)
      && (forall t :: t in tasks ==> 0 < t < nextTaskId && tasks[t].projectId in projects)
      && (forall l :: l in projectUsers ==> l.owner in projects && l.user in users)
      && (forall l :: l in taskUsers ==> l.owner in tasks && l.user in users)
      && (forall i :: 0 <= i < |smtpSettings| ==> 0 < smtpSettings[i].id < nextSmtpSettingsId)
      && SmtpIdsUnique(smtpSettings)
    }

    /** A database whose only seeded table is Roles. */
    constructor (seededRoles: map<Id, Role>)
      ensures Valid()
      ensures roles == seededRoles && users == map[] && projects == map[] && tasks == map[]
      ensures projectUsers == {} && taskUsers == {} && smtpSettings == []
    {
      roles := seededRoles;
      users, projects, tasks := map[], map[], map[];
      projectUsers, taskUsers := {}, {};
      smtpSettings := [];
      nextUserId, nextProjectId, nextTaskId, nextSmtpSettingsId := 1, 1, 1, 1;
    }
  }
}
