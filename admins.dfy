/**
 * The `admin` table and the in-memory `adminSessions` map: the ordered
 * checks of admin signup, login and profile update, the `verifyAdmin`
 * middleware, the profile read, and the session-map updates of login,
 * profile update and logout as functions on the map.
 */
module Admins {
  import opened Wrappers
  import opened Responses
  import opened Tables
  import opened Validation
  import opened Hashing

  /** An `admin` row besides its id. */
  datatype Admin = Admin(email: string, telephone: string, password: Digest)

  /** What `adminSessions` keeps per session id: `{id, email, telephone}`. */
  datatype Session = Session(id: nat, email: string, telephone: string)

  /** The `admin` object of the signup, login and profile responses: the row without its password. */
  datatype AdminView = AdminView(id: nat, email: string, telephone: string)

  /** The `admin` object of the profile-update response: the row re-read as `email, telephone, password`, minus the password. */
  datatype AdminContact = AdminContact(email: string, telephone: string)

  type Sessions = map<string, Session>

  function View(row: Row<Admin>): AdminView
  {
    AdminView(row.id, row.data.email, row.data.telephone)
  }

  function SessionOf(row: Row<Admin>): Session
  {
    Session(row.id, row.data.email, row.data.telephone)
  }

  /** SELECT ... FROM admin WHERE email = ?: the first such admin. */
  function FindByEmail(admins: seq<Row<Admin>>, email: string): (r: Option<Row<Admin>>)
    ensures r.None? <==> forall i :: 0 <= i < |admins| ==> admins[i].data.email != email
    ensures r.Some? ==> exists k :: 0 <= k < |admins| && admins[k] == r.value && r.value.data.email == email
  {
    if admins == [] then None
    else if admins[0].data.email == email then Some(admins[0])
    else
      var r := FindByEmail(admins[1..], email);
      assert forall i :: 1 <= i < |admins| ==> admins[i] == admins[1..][i - 1];
      r
  }

  /** SELECT id FROM admin WHERE email = ? AND id != ? finds a row. */
  predicate EmailUsedByOther(admins: seq<Row<Admin>>, email: string, id: nat)
  {
    exists i :: 0 <= i < |admins| && admins[i].data.email == email && admins[i].id != id
  }

  /** The profile update changes the email (`email !== currentAdmin.email`) to one another admin has. */
  predicate EmailClash(admins: seq<Row<Admin>>, id: nat, current: Admin, email: string)
  {
    email != current.email && EmailUsedByOther(admins, email, id)
  }

  /** No two admins share an email: what signup and profile update maintain. */
  ghost predicate EmailsUnique(admins: seq<Row<Admin>>)
  {
    forall i, j :: 0 <= i < j < |admins| ==> admins[i].data.email != admins[j].data.email
  }

  /** The checks of POST /api/admin/signup, in order. The telephone is only required, not checked against any pattern. */
  function SignupRejection(admins: seq<Row<Admin>>, email: string, telephone: string, password: string): (r: Option<Reason>)
    ensures r.None? <==>
              Present(email) && Present(telephone) && Present(password) && IsAdminPassword(password) &&
              forall i :: 0 <= i < |admins| ==> admins[i].data.email != email
    ensures r == Some(MissingFields) <==> !Present(email) || !Present(telephone) || !Present(password)
    ensures r == Some(ShortPassword) <==>
              Present(email) && Present(telephone) && Present(password) && |password| < 6
    ensures r == Some(EmailTaken) <==>
              Present(email) && Present(telephone) && Present(password) && IsAdminPassword(password) &&
              exists i :: 0 <= i < |admins| && admins[i].data.email == email
    ensures r.Some? ==> Status(r.value) == 400
  {
    if !Present(email) || !Present(telephone) || !Present(password) then Some(MissingFields)
    else if !IsAdminPassword(password) then Some(ShortPassword)
    else if FindByEmail(admins, email).Some? then Some(EmailTaken)
    else None
  }

  /** POST /api/admin/login up to the password comparison: the admin a session is opened for. */
  function LoginCheck(admins: seq<Row<Admin>>, email: string, password: string): (r: Result<Row<Admin>>)
    ensures r == Err(MissingFields) <==> !Present(email) || !Present(password)
    ensures r.Err? ==> r.reason in {MissingFields, BadCredentials} && Status(r.reason) == 400
    ensures r.Ok? ==> r.value in admins && r.value.data.email == email && Verifies(password, r.value.data.password)
  {
    if !Present(email) || !Present(password) then Err(MissingFields)
    else match FindByEmail(admins, email)
      case None => Err(BadCredentials)
      case Some(a) => if Verifies(password, a.data.password) then Ok(a) else Err(BadCredentials)
  }

  /** The `verifyAdmin` middleware: the session of the X-Session-ID header ("" when the header is absent). */
  function VerifyAdmin(sessions: Sessions, header: string): (r: Result<Session>)
    ensures r.Err? <==> header == "" || header !in sessions
    ensures r.Err? ==> Status(r.reason) == 401
    ensures r == Err(NoSession) <==> header == ""
    ensures r.Ok? ==> header in sessions && r.value == sessions[header]
  {
    if header == "" then Err(NoSession)
    else if header !in sessions then Err(InvalidSession)
    else Ok(sessions[header])
  }

  /** GET /api/admin/profile: the caller's admin row, looked up by the session's admin id. */
  function Profile(admins: seq<Row<Admin>>, sessions: Sessions, header: string): (r: Result<AdminView>)
    ensures VerifyAdmin(sessions, header).Err? ==> r == Err(VerifyAdmin(sessions, header).reason)
    ensures r == Err(AdminNotFound) <==>
              header != "" && header in sessions && Find(admins, sessions[header].id).None?
    ensures r.Ok? ==> header in sessions && r.value.id == sessions[header].id &&
                      exists k :: 0 <= k < |admins| && r.value == View(admins[k])
  {
    match VerifyAdmin(sessions, header)
    case Err(reason) => Err(reason)
    case Ok(s) =>
      match Find(admins, s.id)
      case None => Err(AdminNotFound)
      case Some(a) => Ok(View(a))
  }

  /** The checks of PUT /api/admin/profile, in order: session, required fields, the admin row, email clash, passwords. */
  function ProfileUpdateRejection(admins: seq<Row<Admin>>, sessions: Sessions, header: string,
                                  email: string, telephone: string, currentPassword: string, newPassword: string)
    : (r: Option<Reason>)
    ensures VerifyAdmin(sessions, header).Err? ==> r == Some(VerifyAdmin(sessions, header).reason)
    ensures r == Some(MissingFields) <==>
              VerifyAdmin(sessions, header).Ok? && (!Present(email) || !Present(telephone))
    ensures r == Some(AdminNotFound) <==>
              VerifyAdmin(sessions, header).Ok? && Present(email) && Present(telephone) &&
              Find(admins, sessions[header].id).None?
    ensures r == Some(EmailTaken) <==>
              VerifyAdmin(sessions, header).Ok? && Present(email) && Present(telephone) &&
              Find(admins, sessions[header].id).Some? &&
              EmailClash(admins, sessions[header].id, Find(admins, sessions[header].id).value.data, email)
    ensures r == Some(CurrentPasswordRequired) <==>
              VerifyAdmin(sessions, header).Ok? && Present(email) && Present(telephone) &&
              Find(admins, sessions[header].id).Some? &&
              !EmailClash(admins, sessions[header].id, Find(admins, sessions[header].id).value.data, email) &&
              Present(newPassword) && !Present(currentPassword)
    ensures r == Some(WrongCurrentPassword) <==>
              VerifyAdmin(sessions, header).Ok? && Present(email) && Present(telephone) &&
              Find(admins, sessions[header].id).Some? &&
              !EmailClash(admins, sessions[header].id, Find(admins, sessions[header].id).value.data, email) &&
              Present(newPassword) && Present(currentPassword) &&
              !Verifies(currentPassword, Find(admins, sessions[header].id).value.data.password)
    ensures r.None? <==>
              VerifyAdmin(sessions, header).Ok? && Present(email) && Present(telephone) &&
              Find(admins, sessions[header].id).Some? &&
              (var current := Find(admins, sessions[header].id).value.data;
               !EmailClash(admins, sessions[header].id, current, email) &&
               (Present(newPassword) ==> Present(currentPassword) && Verifies(currentPassword, current.password)))
    ensures r.Some? ==> Status(r.value) == (if r.value in {NoSession, InvalidSession} then 401
                                            else if r.value == AdminNotFound then 404 else 400)
  {
    match VerifyAdmin(sessions, header)
    case Err(reason) => Some(reason)
    case Ok(s) =>
      if !Present(email) || !Present(telephone) then Some(MissingFields)
      else match Find(admins, s.id)
        case None => Some(AdminNotFound)
        case Some(current) =>
          if EmailClash(admins, s.id, current.data, email) then Some(EmailTaken)
          else if Present(newPassword) && !Present(currentPassword) then Some(CurrentPasswordRequired)
          else if Present(newPassword) && !Verifies(currentPassword, current.data.password) then Some(WrongCurrentPassword)
          else None
  }

  /** The columns PUT /api/admin/profile writes: email and telephone, and a fresh digest only when a new password is given. */
  function UpdatedAdmin(current: Admin, email: string, telephone: string, newPassword: string): (a: Admin)
    ensures a.email == email && a.telephone == telephone
    ensures Present(newPassword) ==> Verifies(newPassword, a.password)
    ensures !Present(newPassword) ==> a.password == current.password
  {
    Admin(email, telephone, if Present(newPassword) then Hash(newPassword) else current.password)
  }

  /** adminSessions.set(sessionId, {...}) after a successful login. */
  function OpenSession(sessions: Sessions, sessionId: string, admin: Row<Admin>): (m: Sessions)
    ensures m.Keys == sessions.Keys + {sessionId}
    ensures m[sessionId] == SessionOf(admin)
    ensures forall k :: k in sessions && k != sessionId ==> m[k] == sessions[k]
  {
    sessions[sessionId := SessionOf(admin)]
  }

  /** The in-place `session.email = ...; session.telephone = ...` of a profile update, on the caller's entry only. */
  function SyncSession(sessions: Sessions, header: string, email: string, telephone: string): (m: Sessions)
    requires header in sessions
    ensures m.Keys == sessions.Keys
    ensures m[header] == Session(sessions[header].id, email, telephone)
    ensures forall k :: k in sessions && k != header ==> m[k] == sessions[k]
  {
    sessions[header := sessions[header].(email := email, telephone := telephone)]
  }

  /** POST /api/admin/logout: the header's session is deleted when a header is sent. */
  function CloseSession(sessions: Sessions, header: string): (m: Sessions)
    ensures header == "" ==> m == sessions
    ensures header != "" ==> header !in m
    ensures forall k :: k != header ==> (k in m <==> k in sessions)
    ensures forall k :: k in m ==> m[k] == sessions[k]
  {
    if header == "" then sessions else sessions - {header}
  }

  /** After login, the new session id resolves to the admin's `{id, email, telephone}`. */
  lemma LoginThenVerify(sessions: Sessions, sessionId: string, admin: Row<Admin>)
    requires sessionId != ""
    ensures VerifyAdmin(OpenSession(sessions, sessionId, admin), sessionId) ==
            Ok(Session(admin.id, admin.data.email, admin.data.telephone))
  {
  }

  /** After logout the session id is refused, and logging out twice is the same as once. */
  lemma LogoutThenVerify(sessions: Sessions, header: string)
    ensures VerifyAdmin(CloseSession(sessions, header), header).Err?
    ensures CloseSession(CloseSession(sessions, header), header) == CloseSession(sessions, header)
  {
  }

  /** Inserting an admin whose email is new keeps emails unique. */
  lemma InsertKeepsEmailsUnique(admins: seq<Row<Admin>>, next: nat, a: Admin)
    requires EmailsUnique(admins)
    requires forall i :: 0 <= i < |admins| ==> admins[i].data.email != a.email
    ensures EmailsUnique(Insert(admins, next, a))
  {
  }

  /** A profile update that passed its checks keeps emails unique. */
  lemma ProfileUpdateKeepsEmailsUnique(admins: seq<Row<Admin>>, id: nat, current: Admin, a: Admin)
    requires Ascending(admins) && EmailsUnique(admins)
    requires Find(admins, id) == Some(Row(id, current))
    requires a.email == current.email || !EmailUsedByOther(admins, a.email, id)
    ensures EmailsUnique(Replace(admins, id, a))
  {
    var k :| 0 <= k < |admins| && admins[k] == Row(id, current);
    forall i | 0 <= i < |admins| && i != k ensures admins[i].id != id && admins[i].data.email != a.email {
      assert admins[i].id != id by { assert i < k || k < i; }
      if a.email == current.email {
        assert admins[i].data.email != admins[k].data.email by { assert i < k || k < i; }
      }
    }
    ReplaceOneKeepsEmailsUnique(admins, k, a);
  }

  /** Rewriting the one row at index `k` with an email no other row has keeps emails unique. */
  lemma ReplaceOneKeepsEmailsUnique(admins: seq<Row<Admin>>, k: nat, a: Admin)
    requires EmailsUnique(admins) && k < |admins|
    requires forall i :: 0 <= i < |admins| && i != k ==> admins[i].id != admins[k].id && admins[i].data.email != a.email
    ensures EmailsUnique(Replace(admins, admins[k].id, a))
  {
    var r := Replace(admins, admins[k].id, a);
    assert forall i :: 0 <= i < |admins| ==> r[i].data.email == if i == k then a.email else admins[i].data.email;
  }

  /** With one admin per email, login accepts exactly the password of the admin with that email. */
  lemma LoginAcceptsIff(admins: seq<Row<Admin>>, email: string, password: string)
    requires EmailsUnique(admins)
    ensures LoginCheck(admins, email, password).Ok? <==>
              Present(email) && Present(password) &&
              exists i :: 0 <= i < |admins| && admins[i].data.email == email && Verifies(password, admins[i].data.password)
  {
    if Present(email) && Present(password) && FindByEmail(admins, email).Some? {
      var k :| 0 <= k < |admins| && admins[k] == FindByEmail(admins, email).value && admins[k].data.email == email;
      assert forall i :: 0 <= i < |admins| && admins[i].data.email == email ==> i == k;
    }
  }
}
