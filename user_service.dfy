/**
 * UserService: the user queries and the administrator's user writes. The errors are the
 * InvalidOperationExceptions of the source, checked in its order.
 */
module UserService {
  import opened Wrappers
  import opened Entities
  import opened Dtos
  import opened Membership
  import opened Data
  import Crypto

  /** The UserResponseDto of a stored user, with the name of its role. */
  function ToResponse(db: Database, id: Id): (r: UserResponseDto)
    reads db
    requires db.Valid() && id in db.users
    ensures r.id == id && r.username == db.users[id].username && r.email == db.users[id].email
    ensures r.roleId == db.users[id].roleId && r.roleId in db.roles && r.roleName == db.roles[r.roleId].name
  {
    var u := db.users[id];
    UserResponseDto(id, u.username, u.email, db.roles[u.roleId].name, u.roleId)
  }

  /** GetAllUsersAsync: one response per stored user. */
  function GetAllUsers(db: Database): (r: map<Id, UserResponseDto>)
    reads db
    requires db.Valid()
    ensures r.Keys == db.users.Keys
    ensures forall id :: id in r ==> r[id] == ToResponse(db, id)
  {
    map id | id in db.users :: ToResponse(db, id)
  }

  /** GetUserByIdAsync: null exactly for an absent id; otherwise the list's entry. */
  function GetUserById(db: Database, id: Id): (r: Option<UserResponseDto>)
    reads db
    requires db.Valid()
    ensures r.None? <==> id !in db.users
    ensures r.Some? ==> r.value == GetAllUsers(db)[id]
  {
    if id in db.users then Some(ToResponse(db, id)) else None
  }

  /** CreateUserAsync: "Email already exists." before "Role not found."; otherwise a new user
      with the hashed password and no reset token. */
  method CreateUser(db: Database, dto: CreateUserDto) returns (r: Result<UserResponseDto, ServiceError>)
    requires db.Valid()
    modifies db
    ensures db.Valid()
    ensures EmailTaken(old(db.users), dto.email) ==> r == Failure(EmailExists) && unchanged(db)
    ensures !EmailTaken(old(db.users), dto.email) && dto.roleId !in old(db.roles) ==>
              r == Failure(RoleNotFound) && unchanged(db)
    ensures r.Success? <==> !EmailTaken(old(db.users), dto.email) && dto.roleId in old(db.roles)
    ensures r.Success? ==>
      var id := old(db.nextUserId);
      && id !in old(db.users)
      && db.users == old(db.users)[id := User(dto.username, dto.email, Crypto.Hash(dto.password), dto.roleId, None, None)]
      && db.nextUserId == id + 1
      && r.value == ToResponse(db, id)
    ensures r.Failure? ==> unchanged(db)
    ensures unchanged(db`roles, db`projects, db`tasks, db`projectUsers, db`taskUsers, db`smtpSettings)
    ensures unchanged(db`nextProjectId, db`nextTaskId, db`nextSmtpSettingsId)
  {
    if EmailTaken(db.users, dto.email) {
      return Failure(EmailExists);
    }
    if dto.roleId !in db.roles {
      return Failure(RoleNotFound);
    }
    var id := db.nextUserId;
    db.users := db.users[id := User(dto.username, dto.email, Crypto.Hash(dto.password), dto.roleId, None, None)];
    db.nextUserId := id + 1;
    r := Success(ToResponse(db, id));
  }

  /** UpdateUserAsync: null for an absent id; "Email already exists." only when the address
      changes to one another user has; then "Role not found."; otherwise Username, Email
      and RoleId are overwritten and the password and reset fields are kept. */
  method UpdateUser(db: Database, id: Id, dto: UpdateUserDto) returns (r: Result<Option<UserResponseDto>, ServiceError>)
    requires db.Valid()
    modifies db
    ensures db.Valid()
    ensures id !in old(db.users) ==> r == Success(None) && unchanged(db)
    ensures id in old(db.users) ==>
      var u := old(db.users)[id];
      var clash := u.email != dto.email && EmailTaken(old(db.users), dto.email);
      && (clash ==> r == Failure(EmailExists) && unchanged(db))
      && (!clash && dto.roleId !in old(db.roles) ==> r == Failure(RoleNotFound) && unchanged(db))
      && (!clash && dto.roleId in old(db.roles) ==>
            && db.users == old(db.users)[id := u.(username := dto.username, email := dto.email, roleId := dto.roleId)]
            && r == Success(Some(ToResponse(db, id))))
    ensures unchanged(db`roles, db`projects, db`tasks, db`projectUsers, db`taskUsers, db`smtpSettings)
    ensures unchanged(db`nextUserId, db`nextProjectId, db`nextTaskId, db`nextSmtpSettingsId)
  {
    if id !in db.users {
      return Success(None);
    }
    var u := db.users[id];
    if u.email != dto.email && EmailTaken(db.users, dto.email) {
      return Failure(EmailExists);
    }
    if dto.roleId !in db.roles {
      return Failure(RoleNotFound);
    }
    db.users := db.users[id := u.(username := dto.username, email := dto.email, roleId := dto.roleId)];
    r := Success(Some(ToResponse(db, id)));
  }

  /** DeleteUserAsync: false and no change for an absent id; otherwise the user goes, and
      with it (by cascade) its ProjectUser and TaskUser rows, so it is nobody's member. */
  method DeleteUser(db: Database, id: Id) returns (deleted: bool)
    requires db.Valid()
    modifies db
    ensures db.Valid()
    ensures deleted == (id in old(db.users))
    ensures !deleted ==> unchanged(db)
    ensures deleted ==>
      && db.users == old(db.users) - {id}
      && db.projectUsers == UnlinkUser(old(db.projectUsers), id)
      && db.taskUsers == UnlinkUser(old(db.taskUsers), id)
    ensures unchanged(db`roles, db`projects, db`tasks, db`smtpSettings)
    ensures unchanged(db`nextUserId, db`nextProjectId, db`nextTaskId, db`nextSmtpSettingsId)
  {
    if id !in db.users {
      return false;
    }
    db.users := db.users - {id};
    db.projectUsers := UnlinkUser(db.projectUsers, id);
    db.taskUsers := UnlinkUser(db.taskUsers, id);
    deleted := true;
  }

  /** ChangePasswordAsync: "User not found.", then "Current password is incorrect." when the
      current password does not verify; otherwise only the hash changes, to the new one. */
  method ChangePassword(db: Database, userId: Id, dto: ChangePasswordDto) returns (r: Result<bool, ServiceError>)
    requires db.Valid()
    modifies db
    ensures db.Valid()
    ensures userId !in old(db.users) ==> r == Failure(UserNotFound) && unchanged(db)
    ensures userId in old(db.users) && !Crypto.Verify(dto.currentPassword, old(db.users)[userId].passwordHash) ==>
              r == Failure(CurrentPasswordIncorrect) && unchanged(db)
    ensures userId in old(db.users) && Crypto.Verify(dto.currentPassword, old(db.users)[userId].passwordHash) ==>
              && r == Success(true)
              && db.users == old(db.users)[userId := old(db.users)[userId].(passwordHash := Crypto.Hash(dto.newPassword))]
    ensures unchanged(db`roles, db`projects, db`tasks, db`projectUsers, db`taskUsers, db`smtpSettings)
    ensures unchanged(db`nextUserId, db`nextProjectId, db`nextTaskId, db`nextSmtpSettingsId)
  {
    if userId !in db.users {
      return Failure(UserNotFound);
    }
    var u := db.users[userId];
    if !Crypto.Verify(dto.currentPassword, u.passwordHash) {
      return Failure(CurrentPasswordIncorrect);
    }
    db.users := db.users[userId := u.(passwordHash := Crypto.Hash(dto.newPassword))];
    r := Success(true);
  }
}
