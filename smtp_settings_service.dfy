/**
 * SmtpSettingsService: reading the current SMTP settings and writing them. Creating a row
 * switches every earlier row off; updating a row by id leaves the others alone. Also the
 * IsEmailConfiguredAsync check of EmailService, which reads the same table.
 */
module SmtpSettingsService {
  import opened Wrappers
  import opened Entities
  import opened Dtos
  import opened Data

  /** The SmtpSettingsDto of a row. */
  function ToDto(s: SmtpSettings): SmtpSettingsDto {
    SmtpSettingsDto(Some(s.id), s.host, s.port, s.username, s.password, s.enableSsl,
      s.fromEmail, s.fromName, s.isActive)
  }

  /** `OrderByDescending(s => s.CreatedAt).FirstOrDefaultAsync()`: a row with the greatest
      CreatedAt, active or not (among equal CreatedAt values, the earliest row). */
  function Latest(rows: seq<SmtpSettings>): (r: Option<SmtpSettings>)
    ensures r.None? <==> |rows| == 0
    ensures r.Some? ==> r.value in rows
    ensures r.Some? ==> forall i :: 0 <= i < |rows| ==> rows[i].createdAt <= r.value.createdAt
  {
    if |rows| == 0 then None
    else match Latest(rows[1..])
      case None => Some(rows[0])
      case Some(m) => if m.createdAt <= rows[0].createdAt then Some(rows[0]) else Some(m)
  }

  /** GetSmtpSettingsAsync: null on an empty table, otherwise the newest row as a DTO. */
  function GetSmtpSettings(db: Database): (r: Option<SmtpSettingsDto>)
    reads db
    ensures r.None? <==> |db.smtpSettings| == 0
    ensures r.Some? ==> exists s :: s in db.smtpSettings && r.value == ToDto(s)
                         && forall i :: 0 <= i < |db.smtpSettings| ==> db.smtpSettings[i].createdAt <= s.createdAt
  {
    match Latest(db.smtpSettings)
    case None => None
    case Some(s) => Some(ToDto(s))
  }

  /** `SmtpSettings.FindAsync(id)`: the position of the row with that id. */
  function FindIndex(rows: seq<SmtpSettings>, id: Id): (r: Option<nat>)
    ensures r.None? <==> forall i :: 0 <= i < |rows| ==> rows[i].id != id
    ensures r.Some? ==> r.value < |rows| && rows[r.value].id == id
  {
    if |rows| == 0 then None
    else if rows[0].id == id then Some(0)
    else match FindIndex(rows[1..], id)
      case None => None
      case Some(k) => Some(k + 1)
  }

  /** The assignments of the update branch: every editable field from the DTO, UpdatedAt
      set, Id and CreatedAt kept. The row then reads back as the DTO itself. */
  function Overwrite(s: SmtpSettings, dto: SmtpSettingsDto, now: Instant): (r: SmtpSettings)
    ensures r.id == s.id && r.createdAt == s.createdAt && r.updatedAt == Some(now)
    ensures ToDto(r) == dto.(id := Some(s.id))
  {
    s.(host := dto.host, port := dto.port, username := dto.username, password := dto.password,
       enableSsl := dto.enableSsl, fromEmail := dto.fromEmail, fromName := dto.fromName,
       isActive := dto.isActive, updatedAt := Some(now))
  }

  /** The row the create branch adds; it reads back as the DTO with the new id. */
  function NewRow(id: Id, dto: SmtpSettingsDto, now: Instant): (r: SmtpSettings)
    ensures r.id == id && r.createdAt == now && r.updatedAt.None?
    ensures ToDto(r) == dto.(id := Some(id))
  {
    SmtpSettings(id, dto.host, dto.port, dto.username, dto.password, dto.enableSsl,
      dto.fromEmail, dto.fromName, dto.isActive, now, None)
  }

  /** The rows after the deactivation loop: no row is left for IsEmailConfiguredAsync to
      find, and the rows keep their ids, so every id still finds its row. */
  function Deactivated(rows: seq<SmtpSettings>): (r: seq<SmtpSettings>)
    ensures |r| == |rows|
    ensures forall i :: 0 <= i < |rows| ==> r[i] == rows[i].(isActive := false)
    ensures FirstActive(r).None?
    ensures forall id :: FindIndex(r, id) == FindIndex(rows, id)
  {
    var r := seq(|rows|, i requires 0 <= i < |rows| => rows[i].(isActive := false));
    forall id ensures FindIndex(r, id) == FindIndex(rows, id) {
      FindIndexByIds(r, rows, id);
    }
    r
  }

  /** FindIndex looks only at ids: two tables with the same ids in the same order find
      the same position. */
  lemma {:induction false} FindIndexByIds(a: seq<SmtpSettings>, b: seq<SmtpSettings>, id: Id)
    requires |a| == |b| && forall i :: 0 <= i < |a| ==> a[i].id == b[i].id
    ensures FindIndex(a, id) == FindIndex(b, id)
    decreases |a|
  {
    if |a| > 0 && a[0].id != id {
      FindIndexByIds(a[1..], b[1..], id);
    }
  }

  /** CreateOrUpdateSmtpSettingsAsync. With an id: "SMTP ayarları bulunamadı." and no
      change when no row has it, otherwise exactly that row is overwritten. Without one:
      every row is switched off and a new row is appended, so afterwards the new row is
      the only one that can be active. The reply reads back as the stored row. */
  method CreateOrUpdateSmtpSettings(db: Database, dto: SmtpSettingsDto, now: Instant)
    returns (r: Result<SmtpSettingsDto, ServiceError>)
    requires db.Valid()
    modifies db
    ensures db.Valid()
    ensures dto.id.Some? && FindIndex(old(db.smtpSettings), dto.id.value).None? ==>
              r == Failure(SmtpSettingsNotFound) && unchanged(db)
    ensures dto.id.Some? && FindIndex(old(db.smtpSettings), dto.id.value).Some? ==>
      var k := FindIndex(old(db.smtpSettings), dto.id.value).value;
      && db.smtpSettings == old(db.smtpSettings)[k := Overwrite(old(db.smtpSettings)[k], dto, now)]
      && r == Success(ToDto(db.smtpSettings[k])) && r.value == dto
      && db.nextSmtpSettingsId == old(db.nextSmtpSettingsId)
    ensures dto.id.None? ==>
      var id := old(db.nextSmtpSettingsId);
      && db.smtpSettings == Deactivated(old(db.smtpSettings)) + [NewRow(id, dto, now)]
      && (forall i :: 0 <= i < |db.smtpSettings| && db.smtpSettings[i].isActive ==> i == |old(db.smtpSettings)|)
      && r == Success(ToDto(NewRow(id, dto, now))) && r.value == dto.(id := Some(id))
      && db.nextSmtpSettingsId == id + 1
    ensures unchanged(db`roles, db`users, db`projects, db`tasks, db`projectUsers, db`taskUsers)
    ensures unchanged(db`nextUserId, db`nextProjectId, db`nextTaskId)
  {
    if dto.id.Some? {
      var found := FindIndex(db.smtpSettings, dto.id.value);
      if found.None? {
        return Failure(SmtpSettingsNotFound);
      }
      var k := found.value;
      db.smtpSettings := db.smtpSettings[k := Overwrite(db.smtpSettings[k], dto, now)];
      return Success(ToDto(db.smtpSettings[k]));
    }
    var rows := db.smtpSettings;
    var i := 0;
    while i < |rows|
      invariant 0 <= i <= |rows| && |rows| == |db.smtpSettings|
      invariant forall j :: 0 <= j < i ==> rows[j] == db.smtpSettings[j].(isActive := false)
      invariant forall j :: i <= j < |rows| ==> rows[j] == db.smtpSettings[j]
    {
      if rows[i].isActive {
        rows := rows[i := rows[i].(isActive := false)];
      }
      i := i + 1;
    }
    assert rows == Deactivated(db.smtpSettings);
    var id := db.nextSmtpSettingsId;
    var row := NewRow(id, dto, now);
    db.smtpSettings := rows + [row];
    db.nextSmtpSettingsId := id + 1;
    r := Success(ToDto(row));
  }

  /** `SmtpSettings.Where(s => s.IsActive).FirstOrDefaultAsync()`, in table order. */
  function FirstActive(rows: seq<SmtpSettings>): (r: Option<nat>)
    ensures r.None? <==> forall i :: 0 <= i < |rows| ==> !rows[i].isActive
    ensures r.Some? ==> r.value < |rows| && rows[r.value].isActive
                        && forall i :: 0 <= i < r.value ==> !rows[i].isActive
  {
    if |rows| == 0 then None
    else if rows[0].isActive then Some(0)
    else match FirstActive(rows[1..])
      case None => None
      case Some(k) => Some(k + 1)
  }

  /** Host, Username, Password and FromEmail are all non-empty. */
  predicate Complete(s: SmtpSettings) {
    s.host != "" && s.username != "" && s.password != "" && s.fromEmail != ""
  }

  /** EmailService.IsEmailConfiguredAsync over the SmtpSettings table: the first active
      row exists and is complete. A table with no active row is never configured, and a
      configured table has a complete active row. */
  predicate IsEmailConfigured(rows: seq<SmtpSettings>)
    ensures (forall i :: 0 <= i < |rows| ==> !rows[i].isActive) ==> !IsEmailConfigured(rows)
    ensures IsEmailConfigured(rows) ==> exists i :: 0 <= i < |rows| && rows[i].isActive && Complete(rows[i])
  {
    match FirstActive(rows)
    case None => false
    case Some(k) => Complete(rows[k])
  }

  /** After a create, the active row IsEmailConfiguredAsync reads is the new row when that
      row is active, and there is none otherwise. */
  lemma {:induction false} FirstActiveAfterCreate(rows: seq<SmtpSettings>, row: SmtpSettings)
    ensures FirstActive(Deactivated(rows) + [row]) == if row.isActive then Some(|rows|) else None
  {
    var all := Deactivated(rows) + [row];
    forall i | 0 <= i < |all| ensures all[i].isActive ==> i == |rows| {
      if i < |rows| {
        assert all[i] == Deactivated(rows)[i];
      }
    }
    var r := FirstActive(all);
    if row.isActive {
      assert all[|rows|].isActive;
      assert r.Some? && r.value == |rows|;
    } else {
      assert all[|rows|] == row;
      assert r.None?;
    }
  }

  /** After a create, e-mail counts as configured exactly when the new row is active and
      complete: nothing written earlier matters any more. */
  lemma ConfiguredAfterCreate(rows: seq<SmtpSettings>, row: SmtpSettings)
    ensures IsEmailConfigured(Deactivated(rows) + [row]) <==> row.isActive && Complete(row)
  {
    FirstActiveAfterCreate(rows, row);
    assert (Deactivated(rows) + [row])[|rows|] == row;
  }
}
