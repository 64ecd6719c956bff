# ProjectManagementSystem service layer in Dafny

This project models the service layer of the ProjectManagementSystem backend, an
ASP.NET Core API for projects, tasks and users. The database is modelled as one
in-memory store, `Data.Database`. It has one field per table: Roles, Users, Projects,
TaskItems, the ProjectUser and TaskUser join rows, and SmtpSettings. Each service method
is one atomic change of that store, or a query that reads it.

- **Queries** are functions that read the store: the project, task and user lists and
  look-ups, Login, the dashboard counts and the current SMTP settings.
- **Writes** are methods that modify the store, with `Database.Valid()` as their
  invariant. `Valid()` holds:
  - every foreign key refers to an existing row;
  - e-mail addresses are unique;
  - ids are positive and below the identity counters;
  - SMTP row ids are unique.
- **Errors:** a service's `InvalidOperationException` is a `Failure(ServiceError)`, and a
  `null` return is `None`.

The parts of the backend in the model:

- **Visibility.** A user who is not an admin sees only:
  - the projects they are a member of;
  - the tasks they are assigned to, or whose project they are a member of.

  The dashboard's own filters are proved to give the same sets as the lists. Its
  Completed and Pending counts are proved to split Total.
- **Membership replace.** Creating with an id list links the requested ids that are users.
  On update:
  - a `null` list leaves the members alone;
  - any other list makes the members exactly the requested ids that are users;
  - an empty list clears them.

  A replace is idempotent.
- **Password reset.** A user either has no token, or a token with an expiry:
  - `IssueToken` sets the token and makes it usable up to `now + 24h`, that instant
    included;
  - `Redeem` always clears it, and sets the new hash only when the token had not expired.

  The token string is `Convert.ToBase64String` of 32 random bytes, followed by the
  `Replace` chain. The proofs show three things:
  - The chain swaps the standard alphabet for the URL-safe one and drops the padding.
    The result is the unpadded base64url encoding of section 5 of RFC 4648, written with
    the same 6-bit grouping as the standard encoding.
  - The token has 43 characters from that alphabet.
  - A separately written base64url decoder gives back the bytes, so distinct bytes give
    distinct tokens.

  `Uri.EscapeDataString` (sections 2.1 and 2.3 of RFC 3986) is proved to leave the token
  unchanged, so the reset link carries it verbatim.
- **Users.** E-mail uniqueness survives create, update and register, and the error order is
  the order of the source's checks. Register and a successful reset each end in a state
  where Login with the new password succeeds.
- **SMTP settings.**
  - The current settings are a row with the greatest CreatedAt.
  - An update overwrites only the row with that id.
  - A create switches every row off and appends the new row, so afterwards the new row is
    the only one that can be active.
  - `IsEmailConfiguredAsync` of EmailService reads the first active row. It is modelled by
    `SmtpSettingsService.IsEmailConfigured`. The lemma `ConfiguredAfterCreate` says that
    after a create, only the new row decides the answer.

Inputs to the model, instead of effects:
- The clock is a `now` parameter, counted in seconds.
- The 32 random bytes are a parameter.
- The `MvcSettings:BaseUrl` setting is an `Option<string>`.
- The outcome of `SendPasswordResetEmailAsync` is a parameter: true, false, or threw.
- BCrypt is the stand-in pair `Crypto.Hash` and `Crypto.Verify`. They keep BCrypt's rule
  that only the first 72 UTF-8 bytes of a password count.

Points where the model follows the service code over the rest of the repository:
- Nothing in the code keeps reset tokens unique. The model proves only that distinct
  random bytes give distinct tokens (`Base64.TokenInjective`).
- `User.cs` declares neither the reset fields nor CreatedAt. The services read and write
  the reset fields, so the model has them. The model does not have CreatedAt.
- ApplicationDbContext declares neither a TaskUsers set nor an SmtpSettings set, and its
  `OnModelCreating` maps no TaskUser. The services use both tables, so the model has both.
- Deleting a task, a project or a user also deletes the matching TaskUser rows. The source
  declares no such cascade. The model assumes the cascade EF Core applies by default to a
  required foreign key.

## Model

| member | source | states |
|---|---|---|
| Base64.Replace | ProjectManagementSystem/Services/Auth/AuthService.cs:139-141 | each character equal to `from` becomes `to`; every other character and the length are kept |
| Base64.Remove | ProjectManagementSystem/Services/Auth/AuthService.cs:142 | no removed character is left, and the string does not grow |
| Base64.TokenIsBase64Url | ProjectManagementSystem/Services/Auth/AuthService.cs:134-142 | standard base64 with padding, then `+`→`-`, `/`→`_` and `=` dropped, equals unpadded base64url of the same bytes |
| Base64.TokenShape | ProjectManagementSystem/Services/Auth/AuthService.cs:134-142 | a token from 32 bytes has 43 characters, all from the URL-safe alphabet |
| Base64.TokenRoundTrip | ProjectManagementSystem/Services/Auth/AuthService.cs:134-142 | decoding the token as base64url gives back the random bytes |
| Base64.TokenInjective | ProjectManagementSystem/Services/Auth/AuthService.cs:134-142 | distinct random bytes give distinct tokens |
| Uri.EscapeDataString | ProjectManagementSystem/Services/Auth/AuthService.cs:151 | the output has only `%` and unreserved characters, is never shorter, and equals the input when the input is all unreserved |
| Uri.TokenNeedsNoEscaping | ProjectManagementSystem/Services/Auth/AuthService.cs:151 | escaping a reset token returns it unchanged |
| Crypto.VerifyHash | ProjectManagementSystem/Services/UserService.cs:188-194 | a hash verifies its own password, and another password exactly when the two agree on their first 72 UTF-8 bytes |
| Crypto.LongPasswordSuffixVerifies | ProjectManagementSystem/Services/Auth/AuthService.cs:109 | a password of 72 bytes or more still verifies with anything appended |
| Membership.ValidUserIds | ProjectManagementSystem/Services/TaskService.cs:120-123 | only ids of existing users survive, and duplicates collapse, so there are never more rows than requested ids |
| Membership.Requested | ProjectManagementSystem/Services/TaskService.cs:117-133 | a null or empty list asks for no members; otherwise the list's ids that are users |
| Membership.Unlink | ProjectManagementSystem/Services/TaskService.cs:191 | the owner has no members left, and every other owner keeps its members |
| Membership.LinksTo | ProjectManagementSystem/Services/TaskService.cs:202-208 | the rows added are exactly one per id, for that owner |
| Membership.OwnedBy | ProjectManagementSystem/Data/ApplicationDbContext.cs:32-36 | after a cascade, every surviving owner keeps all its members and every deleted owner has none |
| Membership.UnlinkUser | ProjectManagementSystem/Data/ApplicationDbContext.cs:55-59 | the cascade of a user delete: the user is removed from every owner's members, and nothing else changes |
| Membership.Attach | ProjectManagementSystem/Services/TaskService.cs:116-133 | creating adds one row per requested user id and nothing else; an owner with no rows yet then has exactly the requested users, and other owners keep theirs |
| Membership.Replace | ProjectManagementSystem/Services/TaskService.cs:188-210 | null leaves the rows; a list makes the owner's members exactly the requested users; other owners are untouched; every new row is the owner's, pointing at an existing user |
| Membership.AddedMembers | ProjectManagementSystem/Services/ProjectService.cs:87-103 | adding rows for an owner that had none gives it exactly those members |
| Membership.OthersKept | ProjectManagementSystem/Services/ProjectService.cs:87-103 | adding rows for one owner leaves every other owner's members as they were |
| Membership.ReplaceIdempotent | ProjectManagementSystem/Services/ProjectService.cs:139-163 | replacing twice with the same list is the same as replacing once |
| Data.UserWithEmail | ProjectManagementSystem/Services/Auth/AuthService.cs:123-124 | with unique e-mail addresses: the one user with that address, or none when nobody has it |
| Data.Database.constructor | ProjectManagementSystem/Data/ApplicationDbContext.cs:13-18 | an empty store, apart from the seeded roles, satisfies the invariant |
| ProjectService.ToResponse | ProjectManagementSystem/Services/ProjectService.cs:31-40 | the response's user ids are the project's ProjectUser user ids |
| ProjectService.GetAllProjects | ProjectManagementSystem/Services/ProjectService.cs:17-40 | an admin gets every project; anyone else exactly the projects they are a member of |
| ProjectService.GetProjectById | ProjectManagementSystem/Services/ProjectService.cs:42-71 | null exactly when the project is absent, or the actor is neither an admin nor a member; otherwise the list's entry |
| ProjectService.CreateProject | ProjectManagementSystem/Services/ProjectService.cs:73-121 | a new project with a fresh id; its members are the requested ids that are users; other tables are unchanged |
| ProjectService.UpdateProject | ProjectManagementSystem/Services/ProjectService.cs:123-181 | null and no change for an absent id; otherwise Name and Description are overwritten and the members are replaced |
| ProjectService.DeleteProject | ProjectManagementSystem/Services/ProjectService.cs:183-196 | false and no change for an absent id; otherwise the project goes, and by cascade its tasks, its ProjectUser rows and those tasks' TaskUser rows |
| TaskService.ToResponse | ProjectManagementSystem/Services/TaskService.cs:40-52 | the response's user ids are the task's TaskUser user ids |
| TaskService.GetAllTasks | ProjectManagementSystem/Services/TaskService.cs:17-53 | the project filter and the visibility filter both apply; an admin with no filter gets every task; every task that passes both filters is returned |
| TaskService.GetTaskById | ProjectManagementSystem/Services/TaskService.cs:55-91 | null exactly when the task is absent or not visible to the actor; otherwise the list's entry |
| TaskService.CreateTask | ProjectManagementSystem/Services/TaskService.cs:93-159 | "Project not found." and no change for an absent project; otherwise a new task whose assignees are the requested ids that are users |
| TaskService.UpdateTask | ProjectManagementSystem/Services/TaskService.cs:161-238 | null for an absent task, then "Project not found.", both with no change; otherwise the five fields are overwritten and the assignees are replaced |
| TaskService.DeleteTask | ProjectManagementSystem/Services/TaskService.cs:240-253 | false and no change for an absent id; otherwise exactly that task goes, with its TaskUser rows |
| UserService.ToResponse | ProjectManagementSystem/Services/UserService.cs:46-54 | the response mirrors the user and names its existing role |
| UserService.GetAllUsers | ProjectManagementSystem/Services/UserService.cs:17-33 | one response per stored user |
| UserService.GetUserById | ProjectManagementSystem/Services/UserService.cs:35-55 | null exactly for an absent id; otherwise the list's entry |
| UserService.CreateUser | ProjectManagementSystem/Services/UserService.cs:57-106 | "Email already exists." before "Role not found.", both with no change; otherwise a new user with Hash(password) and no reset token |
| UserService.UpdateUser | ProjectManagementSystem/Services/UserService.cs:108-161 | null for an absent id; the address check applies only when the address changes; then the role check; on success only Username, Email and RoleId change |
| UserService.DeleteUser | ProjectManagementSystem/Services/UserService.cs:163-176 | false and no change for an absent id; otherwise the user goes, with their ProjectUser and TaskUser rows |
| UserService.ChangePassword | ProjectManagementSystem/Services/UserService.cs:178-198 | "User not found.", then "Current password is incorrect." (hash unchanged); otherwise only the hash changes, to Hash(new) |
| AuthService.Login | ProjectManagementSystem/Services/Auth/AuthService.cs:96-118 | success exactly when the address's user verifies the password; every failure is the same reply |
| AuthService.Register | ProjectManagementSystem/Services/Auth/AuthService.cs:34-94 | address check first; with RoleId > 0 that role must exist, otherwise a role named "User" must exist; it succeeds exactly when these checks pass; every failure changes nothing; on success Login with the same password succeeds |
| AuthService.IssueToken | ProjectManagementSystem/Services/Auth/AuthService.cs:145-146 | the new token replaces any old one and is usable exactly up to `now + 24h` |
| AuthService.Redeem | ProjectManagementSystem/Services/Auth/AuthService.cs:191-206 | both reset fields are cleared; the hash changes to Hash(new) only if the token had not expired (an expiry equal to `now` has not expired) |
| AuthService.ResetUrl | ProjectManagementSystem/Services/Auth/AuthService.cs:150-151 | the link starts with the configured base URL, or `https://localhost:7236` when none is set |
| AuthService.ResetUrlCarriesToken | ProjectManagementSystem/Services/Auth/AuthService.cs:150-151 | the link carries the token verbatim; only the e-mail address is escaped |
| AuthService.ForgotPassword | ProjectManagementSystem/Services/Auth/AuthService.cs:120-175 | an unknown address gets the generic success reply and changes nothing; a known one stores a fresh token before the send, and keeps it when the send fails or throws |
| AuthService.ResetPassword | ProjectManagementSystem/Services/Auth/AuthService.cs:177-213 | no user with that address and token: nothing changes; otherwise the token is spent, so a replay finds no user; on success Login with the new password succeeds |
| DashboardService.StatusPartition | ProjectManagementSystem/Services/DashboardService.cs:38-44 | Done and Todo-or-InProgress split any set of tasks |
| DashboardService.ProjectsAgree | ProjectManagementSystem/Services/DashboardService.cs:22-27 | the dashboard's project filter equals the project list |
| DashboardService.TasksAgree | ProjectManagementSystem/Services/DashboardService.cs:30-36 | the dashboard's task filter equals the unfiltered task list |
| DashboardService.GetDashboardStats | ProjectManagementSystem/Services/DashboardService.cs:17-53 | the totals are the sizes of the actor's lists; Completed + Pending = Total; TotalUsers is the user count for an admin and 0 otherwise |
| SmtpSettingsService.Latest | ProjectManagementSystem/Services/SmtpSettingsService.cs:24-26 | none for an empty table; otherwise a row with the greatest CreatedAt |
| SmtpSettingsService.GetSmtpSettings | ProjectManagementSystem/Services/SmtpSettingsService.cs:22-45 | null on an empty table; otherwise the newest row, active or not, as a DTO |
| SmtpSettingsService.FindIndex | ProjectManagementSystem/Services/SmtpSettingsService.cs:54 | the position of the row with that id; none exactly when no row has it |
| SmtpSettingsService.Overwrite | ProjectManagementSystem/Services/SmtpSettingsService.cs:60-68 | keeps Id and CreatedAt, sets UpdatedAt, and the row reads back as the DTO |
| SmtpSettingsService.NewRow | ProjectManagementSystem/Services/SmtpSettingsService.cs:84-95 | the new row has the given id and CreatedAt and reads back as the DTO |
| SmtpSettingsService.Deactivated | ProjectManagementSystem/Services/SmtpSettingsService.cs:75-82 | no active row is left, and every id still finds its row at the same position |
| SmtpSettingsService.FindIndexByIds | ProjectManagementSystem/Services/SmtpSettingsService.cs:54 | the row FindAsync finds depends only on the ids, so the deactivation loop does not move any row |
| SmtpSettingsService.CreateOrUpdateSmtpSettings | ProjectManagementSystem/Services/SmtpSettingsService.cs:47-114 | an unknown id fails with no change; an update overwrites exactly that row; a create switches every row off and appends the new one, which is then the only row that can be active; the reply mirrors the stored row |
| SmtpSettingsService.FirstActive | ProjectManagementSystem/Services/EmailService.cs:21-23 | the first active row in table order; none exactly when no row is active |
| SmtpSettingsService.FirstActiveAfterCreate | ProjectManagementSystem/Services/SmtpSettingsService.cs:75-97 | after a create, the first active row is the new row if it is active, and there is none otherwise |
| SmtpSettingsService.IsEmailConfigured | ProjectManagementSystem/Services/EmailService.cs:19-30 | a table with no active row is never configured; a configured table has an active row whose Host, Username, Password and FromEmail are non-empty |
| SmtpSettingsService.ConfiguredAfterCreate | ProjectManagementSystem/Services/SmtpSettingsService.cs:75-97 | after a create, e-mail is configured exactly when the new row is active and complete |

## Left out

- JWT generation (`JwtTokenService.GenerateToken`) is a foreign library call. Register and Login return the role, user id and user name, but no token string.
- EmailService's sending, its HTML bodies and `TestSmtpConnectionAsync` are network I/O. The send's outcome is an input to ForgotPassword.
- Crypto.Hash: BCrypt salts every hash and has a cost factor. A function cannot salt, so the stand-in gives each password a single hash.
- Crypto.VerifyHash: two passwords that BCrypt's key cycling makes collide through embedded NUL characters (such as "ab" and "ab" + NUL + "ab") verify in BCrypt but not in the model. Apart from that, the model accepts exactly the passwords that agree on the first 72 UTF-8 bytes.
- E-mail and token comparisons are exact character equality. A database collation that ignores case is not modelled.
- `TaskItem.AssignedUserId` and its Restrict foreign key are left out. No service writes them.
- User.CreatedAt is left out, and so is the CreatedAt field of UserResponseDto. `User.cs` declares no such field.
- Gating task create, update and delete on access is left out. ITaskService declares actor parameters for them, but TaskService takes no actor and checks nothing.
- SmtpSettingsService.Latest: among rows with equal CreatedAt, the model picks the earliest. The source's order for such ties is undefined.
- SmtpSettingsService.FirstActive uses table order, which the source does not fix.
- AuthService.Register: when several roles are named "User", the model picks any one of them. EF's `FirstOrDefaultAsync` without an ordering does not fix which one.
- DashboardService.GetDashboardStats: `TaskItemStatus` is a closed type with three values. The C# enum accepts any integer the JSON binder gives it, and no service checks the range. A task stored with another status counts in TotalTasks but in neither CompletedTasks nor PendingTasks. So `completedTasks + pendingTasks == totalTasks` (and DashboardService.StatusPartition) holds only for the three named statuses.
- The order of rows in list responses is not modelled. Lists are maps keyed by id, and the parallel id and name lists of a response are one map.
- The DTO validation attributes are not modelled. The model binder checks them before a service runs.
- The controllers and the UI project are not modelled.
- Logging is not modelled.
