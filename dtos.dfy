/**
 * The request and response shapes of the services (the classes of the DTOs folder). The validation attributes
 * on them are enforced by the model binder before a service runs, so they are not part of
 * these types. A `List<int>?` of ids is an Option<seq<Id>>; a response's pair of parallel
 * lists (ids and user names) is one map from user id to user name.
 */
module Dtos {
  import opened Wrappers
  import opened Entities

  datatype CreateTaskDto = CreateTaskDto(
    title: string,
    description: string,
    status: TaskItemStatus,
    priority: TaskItemPriority,
    assignedUserIds: Option<seq<Id>>,
    projectId: Id)

  datatype UpdateTaskDto = UpdateTaskDto(
    title: string,
    description: string,
    status: TaskItemStatus,
    priority: TaskItemPriority,
    assignedUserIds: Option<seq<Id>>,
    projectId: Id)

  datatype TaskResponseDto = TaskResponseDto(
    id: Id,
    title: string,
    description: string,
    status: TaskItemStatus,
    priority: TaskItemPriority,
    assignedUsers: map<Id, string>,
    projectId: Id,
    projectName: string,
    createdDate: Instant)

  datatype CreateProjectDto = CreateProjectDto(name: string, description: string, userIds: Option<seq<Id>>)

  datatype UpdateProjectDto = UpdateProjectDto(name: string, description: string, userIds: Option<seq<Id>>)

  datatype ProjectResponseDto = ProjectResponseDto(
    id: Id,
    name: string,
    description: string,
    createdDate: Instant,
    users: map<Id, string>)

  datatype RegisterDto = RegisterDto(username: string, email: string, password: string, roleId: Option<int>)

  datatype LoginDto = LoginDto(email: string, password: string)

  datatype ForgotPasswordDto = ForgotPasswordDto(email: string)

  datatype ResetPasswordDto = ResetPasswordDto(token: string, email: string, newPassword: string)

  datatype CreateUserDto = CreateUserDto(username: string, email: string, password: string, roleId: Id)

  datatype UpdateUserDto = UpdateUserDto(username: string, email: string, roleId: Id)

  datatype ChangePasswordDto = ChangePasswordDto(currentPassword: string, newPassword: string)

  datatype UserResponseDto = UserResponseDto(id: Id, username: string, email: string, roleName: string, roleId: Id)

  datatype DashboardDto = DashboardDto(
    totalProjects: nat,
    totalTasks: nat,
    completedTasks: nat,
    pendingTasks: nat,
    totalUsers: nat)

  datatype SmtpSettingsDto = SmtpSettingsDto(
    id: Option<Id>,
    host: string,
    port: int,
    username: string,
    password: string,
    enableSsl: bool,
    fromEmail: string,
    fromName: string,
    isActive: bool)

  /** The InvalidOperationExceptions the services throw. */
  datatype ServiceError =
    | EmailExists
    | RoleNotFound
    | ProjectNotFound
    | UserNotFound
    | CurrentPasswordIncorrect
    | SmtpSettingsNotFound
  {
    function Message(): string {
      match this
      case EmailExists => "Email already exists."
      case RoleNotFound => "Role not found."
      case ProjectNotFound => "Project not found."
      case UserNotFound => "User not found."
      case CurrentPasswordIncorrect => "Current password is incorrect."
      case SmtpSettingsNotFound => "SMTP ayarları bulunamadı."
    }
  }
}
