/**
 * AuthService: registration, login and the password-reset flow. A reset token is a small
 * per-user state machine (no token, or a token with its expiry) driven by IssueToken
 * (ForgotPasswordAsync) and Redeem (ResetPasswordAsync). The clock, the 32 random bytes,
 * the MvcSettings:BaseUrl setting and the outcome of the e-mail send are inputs.
 */
module AuthService {
  import opened Wrappers
  import opened Entities
  import opened Dtos
  import opened Data
  import opened Base64
  import opened Uri
  import Crypto

  const EmailExistsMessage := EmailExists.Message()
  const RoleNotFoundMessage := RoleNotFound.Message()
  const NoUserRoleMessage := "User role not found. Please create roles first."
  const RegisteredMessage := "User registered successfully."
  const InvalidLoginMessage := "Invalid email or password."
  const LoginMessage := "Login successful."
  const ResetLinkSentMessage := "Eğer bu e-posta adresi sistemde kayıtlıysa, şifre sıfırlama bağlantısı gönderilmiştir."
  const SendFailedMessage := "Email gönderilirken bir hata oluştu. Lütfen daha sonra tekrar deneyin."
  const InvalidLinkMessage := "Geçersiz veya süresi dolmuş şifre sıfırlama bağlantısı."
  const LinkExpiredMessage := "Şifre sıfırlama bağlantısının süresi dolmuş. Lütfen yeni bir şifre sıfırlama talebinde bulunun."
  const ResetDoneMessage := "Şifreniz başarıyla sıfırlandı. Yeni şifrenizle giriş yapabilirsiniz."
  const DefaultBaseUrl := "https://localhost:7236"
  const TokenLifetime := 24 * SecondsPerHour

  /** The role name, user id and user name a successful Register or Login returns beside
      its JWT. */
  datatype Session = Session(role: string, userId: Id, username: string)

  /** The tuple of Register and Login. */
  datatype AuthResult = AuthResult(success: bool, message: string, session: Option<Session>)

  /** The tuple of ForgotPasswordAsync and ResetPasswordAsync. */
  datatype Reply = Reply(success: bool, message: string)

  /** What SendPasswordResetEmailAsync did: returned true, returned false, or threw. */
  datatype SendOutcome = Sent | NotSent | Threw

  /** The arguments ForgotPasswordAsync hands to SendPasswordResetEmailAsync. */
  datatype ResetMail = ResetMail(to: string, username: string, token: string, url: string)

  /** Login: success exactly when a user with that address has a hash the password
      verifies. Every failure is the same reply, so an unknown address cannot be told from
      a wrong password. */
  function Login(db: Database, dto: LoginDto): (r: AuthResult)
    reads db
    requires db.Valid()
    ensures r.success <==> exists id :: id in db.users && db.users[id].email == dto.email
                                        && Crypto.Verify(dto.password, db.users[id].passwordHash)
    ensures !r.success ==> r == AuthResult(false, InvalidLoginMessage, None)
    ensures r.success ==> r.message == LoginMessage && r.session.Some?
    ensures r.success ==>
      var id := r.session.value.userId;
      && id in db.users && db.users[id].email == dto.email
      && r.session.value.username == db.users[id].username
      && r.session.value.role == db.roles[db.users[id].roleId].name
  {
    match UserWithEmail(db.users, dto.email)
    case None => AuthResult(false, InvalidLoginMessage, None)
    case Some(id) =>
      var u := db.users[id];
      if !Crypto.Verify(dto.password, u.passwordHash) then AuthResult(false, InvalidLoginMessage, None)
      else AuthResult(true, LoginMessage, Some(Session(db.roles[u.roleId].name, id, u.username)))
  }

  /** Register: "Email already exists." first; then, with a positive RoleId that role must
      exist, and without one a role named "User" must exist. On success the new user can
      log in with the password just given, and gets the same session Login would give. */
  method Register(db: Database, dto: RegisterDto) returns (r: AuthResult)
    requires db.Valid()
    modifies db
    ensures db.Valid()
    ensures EmailTaken(old(db.users), dto.email) ==> r == AuthResult(false, EmailExistsMessage, None)
    ensures (!EmailTaken(old(db.users), dto.email) && dto.roleId.Some? && dto.roleId.value > 0
             && dto.roleId.value !in old(db.roles)) ==> r == AuthResult(false, RoleNotFoundMessage, None)
    ensures (!EmailTaken(old(db.users), dto.email) && !(dto.roleId.Some? && dto.roleId.value > 0)
             && !(exists rid :: rid in old(db.roles) && old(db.roles)[rid].name == "User"))
            ==> r == AuthResult(false, NoUserRoleMessage, None)
    ensures r.success <==>
      && !EmailTaken(old(db.users), dto.email)
      && (if dto.roleId.Some? && dto.roleId.value > 0 then dto.roleId.value in old(db.roles)
          else exists rid :: rid in old(db.roles) && old(db.roles)[rid].name == "User")
    ensures !r.success ==> unchanged(db)
    ensures r.success ==>
      var id := old(db.nextUserId);
      && id !in old(db.users)
      && id in db.users
      && db.users == old(db.users)[id := db.users[id]]
      && db.users[id] == User(dto.username, dto.email, Crypto.Hash(dto.password), db.users[id].roleId, None, None)
      && (if dto.roleId.Some? && dto.roleId.value > 0 then db.users[id].roleId == dto.roleId.value
          else db.roles[db.users[id].roleId].name == "User")
      && db.nextUserId == id + 1
      && r == AuthResult(true, RegisteredMessage, Login(db, LoginDto(dto.email, dto.password)).session)
      && Login(db, LoginDto(dto.email, dto.password)).success
    ensures unchanged(db`roles, db`projects, db`tasks, db`projectUsers, db`taskUsers, db`smtpSettings)
    ensures unchanged(db`nextProjectId, db`nextTaskId, db`nextSmtpSettingsId)
  {
    if EmailTaken(db.users, dto.email) {
      return AuthResult(false, EmailExistsMessage, None);
    }
    var roleId;
    if dto.roleId.Some? && dto.roleId.value > 0 {
      if dto.roleId.value !in db.roles {
        return AuthResult(false, RoleNotFoundMessage, None);
      }
      roleId := dto.roleId.value;
    } else {
      if !(exists rid :: rid in db.roles && db.roles[rid].name == "User") {
        return AuthResult(false, NoUserRoleMessage, None);
      }
      roleId :| roleId in db.roles && db.roles[roleId].name == "User";
    }
    var id := db.nextUserId;
    db.users := db.users[id := User(dto.username, dto.email, Crypto.Hash(dto.password), roleId, None, None)];
    db.nextUserId := id + 1;
    Crypto.VerifyHash(dto.password, dto.password);
    r := AuthResult(true, RegisteredMessage, Some(Session(db.roles[roleId].name, id, dto.username)));
  }

  /** A token is unusable when it has no expiry or its expiry is strictly before `now`. */
  predicate Expired(u: User, now: Instant) {
    u.passwordResetTokenExpiry.None? || u.passwordResetTokenExpiry.value < now
  }

  /** The user ResetPasswordAsync looks for: that address and that stored token. */
  predicate Matches(users: map<Id, User>, email: string, token: string) {
    exists id :: id in users && users[id].email == email && users[id].passwordResetToken == Some(token)
  }

  /** The reset fields ForgotPasswordAsync stores: the new token replaces any old one and is
      usable up to and including 24 hours after `now`. Nothing else about the user changes. */
  function IssueToken(u: User, token: string, now: Instant): (r: User)
    ensures r.passwordResetToken == Some(token)
    ensures forall t :: !Expired(r, t) <==> t <= now + TokenLifetime
    ensures r.(passwordResetToken := u.passwordResetToken, passwordResetTokenExpiry := u.passwordResetTokenExpiry) == u
  {
    u.(passwordResetToken := Some(token), passwordResetTokenExpiry := Some(now + TokenLifetime))
  }

  /** What ResetPasswordAsync does to the matched user: the token is single-use, so both
      reset fields are cleared whether or not it had expired, and the new password takes
      effect only if it had not. Nothing else about the user changes. */
  function Redeem(u: User, newPassword: string, now: Instant): (r: User)
    ensures r.passwordResetToken.None? && r.passwordResetTokenExpiry.None?
    ensures Expired(u, now) ==> r.passwordHash == u.passwordHash
    ensures !Expired(u, now) ==> Crypto.Verify(newPassword, r.passwordHash)
    ensures r.(passwordHash := u.passwordHash, passwordResetToken := u.passwordResetToken,
               passwordResetTokenExpiry := u.passwordResetTokenExpiry) == u
  {
    var cleared := u.(passwordResetToken := None, passwordResetTokenExpiry := None);
    if Expired(u, now) then cleared else cleared.(passwordHash := Crypto.Hash(newPassword))
  }

  /** The link of the reset e-mail. */
  function ResetUrl(baseUrl: Option<string>, token: string, email: string): (url: string)
    ensures |url| >= |baseUrl.GetOr(DefaultBaseUrl)|
    ensures url[..|baseUrl.GetOr(DefaultBaseUrl)|] == baseUrl.GetOr(DefaultBaseUrl)
  {
    baseUrl.GetOr(DefaultBaseUrl) + "/Auth/ResetPassword?token=" + EscapeDataString(token)
      + "&email=" + EscapeDataString(email)
  }

  /** The link carries the token verbatim: a reset token needs no percent-escaping. */
  lemma ResetUrlCarriesToken(baseUrl: Option<string>, bytes: seq<byte>, email: string)
    ensures ResetUrl(baseUrl, ResetToken(bytes), email)
            == baseUrl.GetOr(DefaultBaseUrl) + "/Auth/ResetPassword?token=" + ResetToken(bytes)
               + "&email=" + EscapeDataString(email)
  {
    TokenNeedsNoEscaping(bytes);
  }

  /** ForgotPasswordAsync. An unknown address gets the same successful reply as a sent
      e-mail and changes nothing. A known one gets a fresh token from the random bytes,
      stored before the send, so it stays stored when the send fails or throws. */
  method ForgotPassword(db: Database, dto: ForgotPasswordDto, randomBytes: seq<byte>, now: Instant,
                        baseUrl: Option<string>, send: SendOutcome)
    returns (r: Reply, mail: Option<ResetMail>)
    requires db.Valid()
    requires |randomBytes| == 32
    modifies db
    ensures db.Valid()
    ensures !EmailTaken(old(db.users), dto.email) ==> r == Reply(true, ResetLinkSentMessage) && mail.None? && unchanged(db)
    ensures EmailTaken(old(db.users), dto.email) ==>
      var id := UserWithEmail(old(db.users), dto.email).value;
      var token := ResetToken(randomBytes);
      && db.users == old(db.users)[id := IssueToken(old(db.users)[id], token, now)]
      && mail == Some(ResetMail(dto.email, old(db.users)[id].username, token, ResetUrl(baseUrl, token, dto.email)))
      && r == (if send == Sent then Reply(true, ResetLinkSentMessage) else Reply(false, SendFailedMessage))
      && Matches(db.users, dto.email, token)
    ensures unchanged(db`roles, db`projects, db`tasks, db`projectUsers, db`taskUsers, db`smtpSettings)
    ensures unchanged(db`nextUserId, db`nextProjectId, db`nextTaskId, db`nextSmtpSettingsId)
  {
    var found := UserWithEmail(db.users, dto.email);
    if found.None? {
      return Reply(true, ResetLinkSentMessage), None;
    }
    var id := found.value;
    var u := db.users[id];
    var token := ResetToken(randomBytes);
    db.users := db.users[id := IssueToken(u, token, now)];
    assert db.users[id].email == dto.email && db.users[id].passwordResetToken == Some(token);
    mail := Some(ResetMail(u.email, u.username, token, ResetUrl(baseUrl, token, u.email)));
    if send == Sent {
      r := Reply(true, ResetLinkSentMessage);
    } else {
      r := Reply(false, SendFailedMessage);
    }
  }

  /** ResetPasswordAsync. No user with that address and token: nothing changes. Otherwise
      the token is spent whatever happens, so replaying it finds no user; the password
      changes only if the token had not expired, and then the new one logs in. */
  method ResetPassword(db: Database, dto: ResetPasswordDto, now: Instant) returns (r: Reply)
    requires db.Valid()
    modifies db
    ensures db.Valid()
    ensures !Matches(old(db.users), dto.email, dto.token) ==> r == Reply(false, InvalidLinkMessage) && unchanged(db)
    ensures Matches(old(db.users), dto.email, dto.token) ==>
      var id := UserWithEmail(old(db.users), dto.email).value;
      && db.users == old(db.users)[id := Redeem(old(db.users)[id], dto.newPassword, now)]
      && r == (if Expired(old(db.users)[id], now) then Reply(false, LinkExpiredMessage) else Reply(true, ResetDoneMessage))
      && !Matches(db.users, dto.email, dto.token)
    ensures r.success ==> Login(db, LoginDto(dto.email, dto.newPassword)).success
    ensures unchanged(db`roles, db`projects, db`tasks, db`projectUsers, db`taskUsers, db`smtpSettings)
    ensures unchanged(db`nextUserId, db`nextProjectId, db`nextTaskId, db`nextSmtpSettingsId)
  {
    if !Matches(db.users, dto.email, dto.token) {
      return Reply(false, InvalidLinkMessage);
    }
    var id :| id in db.users && db.users[id].email == dto.email && db.users[id].passwordResetToken == Some(dto.token);
    var u := db.users[id];
    db.users := db.users[id := Redeem(u, dto.newPassword, now)];
    if Expired(u, now) {
      r := Reply(false, LinkExpiredMessage);
    } else {
      r := Reply(true, ResetDoneMessage);
    }
  }
}
