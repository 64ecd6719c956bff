/**
 * The rows of the database tables (the classes of the Entities folder and the SmtpSettings entity the services
 * use). Ids are the keys of the tables in Data.Database; the navigation collections
 * (ProjectUsers, TaskUsers, Tasks) are the join tables themselves.
 */
module Entities {
  import opened Wrappers

  type Id = int

  /** A UTC instant (DateTime.UtcNow), counted in seconds. */
  type Instant = int

  const SecondsPerHour: int := 3600

  datatype TaskItemStatus = Todo | InProgress | Done

  datatype TaskItemPriority = Low | Medium | High

  datatype Role = Role(name: string)

  /** A user; the two reset fields are those AuthService writes (null = None). */
  datatype User = User(
    username: string,
    email: string,
    passwordHash: string,
    roleId: Id,
    passwordResetToken: Option<string>,
    passwordResetTokenExpiry: Option<Instant>)

  datatype Project = Project(name: string, description: string, createdDate: Instant)

  datatype TaskItem = TaskItem(
    title: string,
    description: string,
    status: TaskItemStatus,
    priority: TaskItemPriority,
    projectId: Id,
    createdDate: Instant)

  /** A row of a join table with a composite key: ProjectUser (ProjectId, UserId) or
      TaskUser (TaskId, UserId); `owner` is the project or the task. */
  datatype Link = Link(owner: Id, user: Id)

  datatype SmtpSettings = SmtpSettings(
    id: Id,
    host: string,
    port: int,
    username: string,
    password: string,
    enableSsl: bool,
    fromEmail: string,
    fromName: string,
    isActive: bool,
    createdAt: Instant,
    updatedAt: Option<Instant>)
}
