/**
 * The server's state and its state-changing routes. `Store` holds the five
 * MySQL tables, their auto-increment counters and the in-memory
 * `adminSessions` map; each route that writes is a method that runs the
 * route's checks (the pure `...Rejection` functions), then the statement,
 * and keeps `Valid()`: well-formed tables, unique admin emails, unique user
 * telephones, every session naming an existing admin, and well-formed
 * telephones wherever a route checked them before writing.
 */
module Server {
  import opened Wrappers
  import opened Responses
  import opened Hashing
  import opened Validation
  import opened Tables
  import opened Admins
  import opened Accounts
  import opened Clients
  import opened History
  import opened Tickets

  ghost predicate ClientTelephones(rows: seq<Row<Client>>)
  {
    forall i :: 0 <= i < |rows| ==> IsTelephone(rows[i].data.telephone)
  }

  ghost predicate UserTelephones(rows: seq<Row<User>>)
  {
    forall i :: 0 <= i < |rows| ==> IsTelephone(rows[i].data.telephone)
  }

  ghost predicate TicketTelephones(rows: seq<Row<Ticket>>)
  {
    forall i :: 0 <= i < |rows| ==> IsTelephone(rows[i].data.telephone)
  }

  lemma ReplaceKeepsClientTelephones(rows: seq<Row<Client>>, id: nat, data: Client)
    requires ClientTelephones(rows) && IsTelephone(data.telephone)
    ensures ClientTelephones(Replace(rows, id, data))
  {
  }

  lemma ReplaceKeepsTicketTelephones(rows: seq<Row<Ticket>>, id: nat, data: Ticket)
    requires TicketTelephones(rows) && IsTelephone(data.telephone)
    ensures TicketTelephones(Replace(rows, id, data))
  {
  }

  /** Every session's admin id names an admin row. */
  ghost predicate SessionsKnown(admins: seq<Row<Admin>>, sessions: Sessions)
  {
    forall k :: k in sessions ==> Find(admins, sessions[k].id).Some?
  }

  /** What the admin routes maintain: well-formed rows, unique emails, sessions naming existing admins. */
  ghost predicate AdminState(admins: seq<Row<Admin>>, sessions: Sessions, next: nat)
  {
    next >= 1 && WellFormed(admins, next) && EmailsUnique(admins) && SessionsKnown(admins, sessions)
  }

  /** What the user routes maintain: well-formed rows, unique and well-formed telephones. */
  ghost predicate UserState(users: seq<Row<User>>, next: nat)
  {
    next >= 1 && WellFormed(users, next) && TelephonesUnique(users) && UserTelephones(users)
  }

  ghost predicate ClientState(clients: seq<Row<Client>>, next: nat)
  {
    next >= 1 && WellFormed(clients, next) && ClientTelephones(clients)
  }

  ghost predicate HistoryState(history: seq<Row<Entry>>, next: nat)
  {
    next >= 1 && WellFormed(history, next)
  }

  ghost predicate TicketState(tickets: seq<Row<Ticket>>, next: nat)
  {
    next >= 1 && WellFormed(tickets, next) && TicketTelephones(tickets)
  }

  /**
   * A profile update keeps the admin invariant, both after the row is rewritten and after the
   * caller's session entry is synchronised: ids do not move, and the new email clashes with no other admin.
   */
  lemma ProfileUpdateKeepsAdminState(admins: seq<Row<Admin>>, sessions: Sessions, next: nat, header: string,
                                     current: Admin, a: Admin)
    requires AdminState(admins, sessions, next) && header in sessions
    requires Find(admins, sessions[header].id) == Some(Row(sessions[header].id, current))
    requires a.email == current.email || !EmailUsedByOther(admins, a.email, sessions[header].id)
    ensures AdminState(Replace(admins, sessions[header].id, a), sessions, next)
    ensures AdminState(Replace(admins, sessions[header].id, a), SyncSession(sessions, header, a.email, a.telephone), next)
  {
    var id := sessions[header].id;
    ReplaceWellFormed(admins, next, id, a);
    ProfileUpdateKeepsEmailsUnique(admins, id, current, a);
    forall k | k in sessions ensures Find(Replace(admins, id, a), sessions[k].id).Some? {
      FindReplaced(admins, id, a, sessions[k].id);
    }
    SyncKeepsSessionsKnown(Replace(admins, id, a), sessions, header, a.email, a.telephone);
  }

  /** Rewriting the caller's session entry keeps its admin id, so every session still names an admin. */
  lemma SyncKeepsSessionsKnown(admins: seq<Row<Admin>>, sessions: Sessions, header: string, email: string, telephone: string)
    requires SessionsKnown(admins, sessions) && header in sessions
    ensures SessionsKnown(admins, SyncSession(sessions, header, email, telephone))
  {
    var synced := SyncSession(sessions, header, email, telephone);
    forall k | k in synced ensures Find(admins, synced[k].id).Some? {
      assert synced[k].id == sessions[k].id;
    }
  }

  /** Handing out the next auto-increment id keeps a table well formed. */
  lemma WellFormedGrows<T>(rows: seq<Row<T>>, next: nat)
    requires WellFormed(rows, next)
    ensures WellFormed(rows, next + 1)
  {
  }

  class Store {
    var admins: seq<Row<Admin>>
    var sessions: Sessions
    var users: seq<Row<User>>
    var clients: seq<Row<Client>>
    var history: seq<Row<Entry>>
    var tickets: seq<Row<Ticket>>
    var nextAdminId: nat
    var nextUserId: nat
    var nextClientId: nat
    var nextHistoryId: nat
    var nextTicketId: nat

    ghost predicate Valid()
      reads this
    {
      && AdminState(admins, sessions, nextAdminId)
      && UserState(users, nextUserId)
      && ClientState(clients, nextClientId)
      && HistoryState(history, nextHistoryId)
      && TicketState(tickets, nextTicketId)
    }

    /** An empty database and no sessions; every counter starts at 1. */
    constructor ()
      ensures Valid()
      ensures admins == [] && sessions == map[] && users == [] && clients == [] && history == [] && tickets == []
      ensures nextAdminId == 1 && nextUserId == 1 && nextClientId == 1 && nextHistoryId == 1 && nextTicketId == 1
    {
      admins, sessions, users, clients, history, tickets := [], map[], [], [], [], [];
      nextAdminId, nextUserId, nextClientId, nextHistoryId, nextTicketId := 1, 1, 1, 1, 1;
    }

    // Auto-increment: each INSERT takes the table's next id.

    method NextAdminId() returns (id: nat)
      requires Valid()
      modifies this`nextAdminId
      ensures Valid() && id == old(nextAdminId) && nextAdminId == id + 1
    {
      id := nextAdminId;
      WellFormedGrows(admins, id);
      nextAdminId := id + 1;
    }

    method NextUserId() returns (id: nat)
      requires Valid()
      modifies this`nextUserId
      ensures Valid() && id == old(nextUserId) && nextUserId == id + 1
    {
      id := nextUserId;
      WellFormedGrows(users, id);
      nextUserId := id + 1;
    }

    method AppendClient(data: Client) returns (id: nat)
      requires Valid() && IsTelephone(data.telephone)
      modifies this`clients, this`nextClientId
      ensures Valid() && id == old(nextClientId) && clients == Insert(old(clients), id, data) && nextClientId == id + 1
    {
      id := nextClientId;
      InsertWellFormed(clients, id, data);
      clients, nextClientId := Insert(clients, id, data), id + 1;
    }

    method AppendHistory(data: Entry) returns (id: nat)
      requires Valid()
      modifies this`history, this`nextHistoryId
      ensures Valid() && id == old(nextHistoryId) && history == Insert(old(history), id, data) && nextHistoryId == id + 1
    {
      id := nextHistoryId;
      InsertWellFormed(history, id, data);
      history, nextHistoryId := Insert(history, id, data), id + 1;
    }

    method AppendTicket(data: Ticket) returns (id: nat)
      requires Valid() && IsTelephone(data.telephone)
      modifies this`tickets, this`nextTicketId
      ensures Valid() && id == old(nextTicketId) && tickets == Insert(old(tickets), id, data) && nextTicketId == id + 1
    {
      id := nextTicketId;
      InsertWellFormed(tickets, id, data);
      tickets, nextTicketId := Insert(tickets, id, data), id + 1;
    }

    // Writing one table (or the session map) whose new contents keep the invariant.

    method SetAdmins(rows: seq<Row<Admin>>)
      requires Valid() && AdminState(rows, sessions, nextAdminId)
      modifies this`admins
      ensures Valid() && admins == rows
    {
      admins := rows;
    }

    method SetSessions(m: Sessions)
      requires Valid() && AdminState(admins, m, nextAdminId)
      modifies this`sessions
      ensures Valid() && sessions == m
    {
      sessions := m;
    }

    method SetAdminTables(rows: seq<Row<Admin>>, m: Sessions)
      requires Valid() && AdminState(rows, m, nextAdminId)
      modifies this`admins, this`sessions
      ensures Valid() && admins == rows && sessions == m
    {
      admins, sessions := rows, m;
    }

    method SetUsers(rows: seq<Row<User>>)
      requires Valid() && UserState(rows, nextUserId)
      modifies this`users
      ensures Valid() && users == rows
    {
      users := rows;
    }

    method SetClients(rows: seq<Row<Client>>)
      requires Valid() && ClientState(rows, nextClientId)
      modifies this`clients
      ensures Valid() && clients == rows
    {
      clients := rows;
    }

    method SetTickets(rows: seq<Row<Ticket>>)
      requires Valid() && TicketState(rows, nextTicketId)
      modifies this`tickets
      ensures Valid() && tickets == rows
    {
      tickets := rows;
    }

    /** POST /api/admin/signup: the reply is `{id, email, telephone}` with status 201. */
    method AdminSignup(email: string, telephone: string, password: string) returns (r: Result<AdminView>)
      requires Valid()
      modifies this`admins, this`nextAdminId
      ensures Valid()
      ensures r.Err? <==> Admins.SignupRejection(old(admins), email, telephone, password).Some?
      ensures r.Err? ==> r.reason == Admins.SignupRejection(old(admins), email, telephone, password).value &&
                         admins == old(admins) && nextAdminId == old(nextAdminId)
      ensures r.Ok? ==> r.value == AdminView(old(nextAdminId), email, telephone) &&
                        admins == Insert(old(admins), old(nextAdminId), Admin(email, telephone, Hash(password))) &&
                        nextAdminId == old(nextAdminId) + 1
    {
      var rejection := Admins.SignupRejection(admins, email, telephone, password);
      if rejection.Some? {
        return Err(rejection.value);
      }
      var a := Admin(email, telephone, Hash(password));
      var id := NextAdminId();
      assert AdminState(Insert(admins, id, a), sessions, nextAdminId) by {
        InsertWellFormed(admins, id, a);
        InsertKeepsEmailsUnique(admins, id, a);
        forall k | k in sessions ensures Find(Insert(admins, id, a), sessions[k].id).Some? {
          FindInserted(admins, id, a, sessions[k].id);
        }
      }
      SetAdmins(Insert(admins, id, a));
      r := Ok(AdminView(id, email, telephone));
    }

    /** POST /api/admin/login: `sessionId` is the route's fresh session id; on success it resolves to the admin. */
    method AdminLogin(email: string, password: string, sessionId: string) returns (r: Result<AdminView>)
      requires Valid() && sessionId != ""
      modifies this`sessions
      ensures Valid()
      ensures r.Err? <==> LoginCheck(admins, email, password).Err?
      ensures r.Err? ==> r.reason == LoginCheck(admins, email, password).reason && sessions == old(sessions)
      ensures r.Ok? ==> r.value == Admins.View(LoginCheck(admins, email, password).value) &&
                        sessions == OpenSession(old(sessions), sessionId, LoginCheck(admins, email, password).value) &&
                        VerifyAdmin(sessions, sessionId) == Ok(SessionOf(LoginCheck(admins, email, password).value))
    {
      var check := LoginCheck(admins, email, password);
      if check.Err? {
        return Err(check.reason);
      }
      var row := check.value;
      LoginThenVerify(sessions, sessionId, row);
      assert AdminState(admins, OpenSession(sessions, sessionId, row), nextAdminId) by {
        assert Find(admins, row.id).Some?;
      }
      SetSessions(OpenSession(sessions, sessionId, row));
      r := Ok(Admins.View(row));
    }

    /** Under the store's invariant a verified session always finds its admin row. */
    lemma ProfileNeverMissing(header: string)
      requires Valid()
      ensures Profile(admins, sessions, header) != Err(AdminNotFound)
      ensures VerifyAdmin(sessions, header).Ok? ==> Profile(admins, sessions, header).Ok?
    {
    }

    /**
     * PUT /api/admin/profile: the caller's row gets the new email and telephone (and a new digest
     * when a new password is sent), and the caller's own session entry is brought up to date.
     */
    method UpdateAdminProfile(header: string, email: string, telephone: string, currentPassword: string, newPassword: string)
      returns (r: Result<AdminContact>)
      requires Valid()
      modifies this`admins, this`sessions
      ensures Valid()
      ensures r.Err? <==> ProfileUpdateRejection(old(admins), old(sessions), header, email, telephone, currentPassword, newPassword).Some?
      ensures r.Err? ==> r.reason == ProfileUpdateRejection(old(admins), old(sessions), header, email, telephone, currentPassword, newPassword).value &&
                         admins == old(admins) && sessions == old(sessions)
      ensures r.Ok? ==>
                header in old(sessions) &&
                var id := old(sessions)[header].id;
                var current := Find(old(admins), id).value.data;
                && r.value == AdminContact(email, telephone)
                && admins == Replace(old(admins), id, UpdatedAdmin(current, email, telephone, newPassword))
                && Find(admins, id) == Some(Row(id, UpdatedAdmin(current, email, telephone, newPassword)))
                && sessions == SyncSession(old(sessions), header, email, telephone)
    {
      var rejection := ProfileUpdateRejection(admins, sessions, header, email, telephone, currentPassword, newPassword);
      if rejection.Some? {
        return Err(rejection.value);
      }
      var id := sessions[header].id;
      var current := Find(admins, id).value;
      var a := UpdatedAdmin(current.data, email, telephone, newPassword);
      FindReplaced(admins, id, a, id);
      RewriteAdmin(header, current.data, a);
      r := Ok(AdminContact(a.email, a.telephone));
    }

    /** The two writes of a profile update that passed its checks: the admin row, then the caller's session entry. */
    method RewriteAdmin(header: string, current: Admin, a: Admin)
      requires Valid() && header in sessions
      requires Find(admins, sessions[header].id) == Some(Row(sessions[header].id, current))
      requires a.email == current.email || !EmailUsedByOther(admins, a.email, sessions[header].id)
      modifies this`admins, this`sessions
      ensures Valid()
      ensures admins == Replace(old(admins), old(sessions)[header].id, a)
      ensures sessions == SyncSession(old(sessions), header, a.email, a.telephone)
    {
      var na := Replace(admins, sessions[header].id, a);
      var ns := SyncSession(sessions, header, a.email, a.telephone);
      ProfileUpdateKeepsAdminState(admins, sessions, nextAdminId, header, current, a);
      SetAdminTables(na, ns);
    }

    /** POST /api/admin/logout: always 200; the header's session, if any, is gone. */
    method AdminLogout(header: string)
      requires Valid()
      modifies this`sessions
      ensures Valid()
      ensures sessions == CloseSession(old(sessions), header)
      ensures VerifyAdmin(sessions, header).Err?
    {
      LogoutThenVerify(sessions, header);
      SetSessions(CloseSession(sessions, header));
    }

    /** POST /api/signup: the reply is the new user without its PIN digest. */
    method Signup(amazina: string, refTelephone: string, location: string, telephone: string, pin: string)
      returns (r: Result<UserView>)
      requires Valid()
      modifies this`users, this`nextUserId
      ensures Valid()
      ensures r.Err? <==> Accounts.SignupRejection(old(users), amazina, refTelephone, telephone, pin).Some?
      ensures r.Err? ==> r.reason == Accounts.SignupRejection(old(users), amazina, refTelephone, telephone, pin).value &&
                         users == old(users) && nextUserId == old(nextUserId)
      ensures r.Ok? ==>
                var u := NewUser(amazina, refTelephone, location, telephone, pin);
                && users == Insert(old(users), old(nextUserId), u)
                && nextUserId == old(nextUserId) + 1
                && r.value == Accounts.View(Row(old(nextUserId), u))
                && Login(users, telephone, pin).Ok?
    {
      var rejection := Accounts.SignupRejection(users, amazina, refTelephone, telephone, pin);
      if rejection.Some? {
        return Err(rejection.value);
      }
      var u := NewUser(amazina, refTelephone, location, telephone, pin);
      SignupThenLogin(users, nextUserId, amazina, refTelephone, location, telephone, pin);
      var id := NextUserId();
      assert UserState(Insert(users, id, u), nextUserId) by {
        InsertWellFormed(users, id, u);
        InsertKeepsTelephonesUnique(users, id, u);
      }
      SetUsers(Insert(users, id, u));
      r := Ok(Accounts.View(Row(id, u)));
    }

    /**
     * POST /api/forgot-password: `token` is the route's random six-digit value and `now` its clock;
     * the token, valid for ten minutes, is stored on the user and sent back.
     */
    method ForgotPassword(telephone: string, token: int, now: int) returns (r: Result<int>)
      requires Valid() && IsToken(token)
      modifies this`users
      ensures Valid()
      ensures r.Err? <==> FindByTelephone(old(users), telephone).None?
      ensures r.Err? ==> r.reason == UserNotFound && users == old(users)
      ensures r.Ok? ==> r.value == token && users == IssueToken(old(users), telephone, token, now + TokenLifetime)
    {
      if FindByTelephone(users, telephone).None? {
        return Err(UserNotFound);
      }
      var updated := IssueToken(users, telephone, token, now + TokenLifetime);
      assert UserState(updated, nextUserId) by {
        TokenUpdatesKeepTelephones(users, telephone, token, now + TokenLifetime, Hash(""));
        SameIdsWellFormed(users, updated, nextUserId);
      }
      SetUsers(updated);
      r := Ok(token);
    }

    /** POST /api/reset-password: a matching, unexpired token lets the PIN be replaced; the token is then cleared. */
    method ResetPassword(telephone: string, token: int, newPin: string, now: int) returns (rejection: Option<Reason>)
      requires Valid()
      modifies this`users
      ensures Valid()
      ensures rejection == ResetRejection(old(users), telephone, token, newPin, now)
      ensures rejection.Some? ==> users == old(users)
      ensures rejection.None? ==> users == ResetPin(old(users), telephone, Hash(newPin))
    {
      rejection := ResetRejection(users, telephone, token, newPin, now);
      if rejection.None? {
        var updated := ResetPin(users, telephone, Hash(newPin));
        assert UserState(updated, nextUserId) by {
          TokenUpdatesKeepTelephones(users, telephone, token, now, Hash(newPin));
          SameIdsWellFormed(users, updated, nextUserId);
        }
        SetUsers(updated);
      }
    }

    /** POST /api/clients: a new client row (with its first product); the reply is the inserted row. */
    method CreateClient(amazina: string, telephone: string, product: string, amount: Option<Amount>,
                        createdBy: nat, creatorTelephone: string, creatorName: string) returns (r: Result<Row<Client>>)
      requires Valid()
      modifies this`clients, this`nextClientId
      ensures Valid()
      ensures r.Err? <==> CreateRejection(amazina, telephone, createdBy, creatorTelephone).Some?
      ensures r.Err? ==> r.reason == CreateRejection(amazina, telephone, createdBy, creatorTelephone).value &&
                         clients == old(clients) && nextClientId == old(nextClientId)
      ensures r.Ok? ==>
                && r.value == Row(old(nextClientId), NewClient(amazina, telephone, product, amount, createdBy, creatorTelephone, creatorName))
                && clients == old(clients) + [r.value]
                && nextClientId == old(nextClientId) + 1
    {
      var rejection := CreateRejection(amazina, telephone, createdBy, creatorTelephone);
      if rejection.Some? {
        return Err(rejection.value);
      }
      var c := NewClient(amazina, telephone, product, amount, createdBy, creatorTelephone, creatorName);
      var id := AppendClient(c);
      r := Ok(Row(id, c));
    }

    /** POST /api/clients/add-product: another row under an existing telephone, under the first row's name. */
    method AddProduct(telephone: string, product: string, amount: Option<Amount>,
                      createdBy: nat, creatorTelephone: string, creatorName: string) returns (r: Result<Row<Client>>)
      requires Valid()
      modifies this`clients, this`nextClientId
      ensures Valid()
      ensures r.Err? <==> AddProductRejection(old(clients), telephone, product, createdBy, creatorTelephone).Some?
      ensures r.Err? ==> r.reason == AddProductRejection(old(clients), telephone, product, createdBy, creatorTelephone).value &&
                         clients == old(clients) && nextClientId == old(nextClientId)
      ensures r.Ok? ==>
                var first := FirstWithTelephone(old(clients), telephone).value;
                && r.value == Row(old(nextClientId), AddedProduct(first.data, telephone, product, amount, createdBy, creatorTelephone, creatorName))
                && r.value.data.amazina == first.data.amazina
                && clients == old(clients) + [r.value]
                && nextClientId == old(nextClientId) + 1
    {
      var rejection := AddProductRejection(clients, telephone, product, createdBy, creatorTelephone);
      if rejection.Some? {
        return Err(rejection.value);
      }
      var first := FirstWithTelephone(clients, telephone).value;
      var c := AddedProduct(first.data, telephone, product, amount, createdBy, creatorTelephone, creatorName);
      var id := AppendClient(c);
      r := Ok(Row(id, c));
    }

    /** PUT /api/clients/:id: overwrites four columns of one row and keeps its creator columns. */
    method UpdateClient(id: nat, amazina: string, telephone: string, product: string, amount: Option<Amount>)
      returns (r: Result<Row<Client>>)
      requires Valid()
      modifies this`clients
      ensures Valid()
      ensures r.Err? <==> Clients.UpdateRejection(old(clients), id, amazina, telephone).Some?
      ensures r.Err? ==> r.reason == Clients.UpdateRejection(old(clients), id, amazina, telephone).value && clients == old(clients)
      ensures r.Ok? ==>
                var current := Find(old(clients), id).value.data;
                && r.value == Row(id, Overwritten(current, amazina, telephone, product, amount))
                && clients == Replace(old(clients), id, r.value.data)
                && Find(clients, id) == Some(r.value)
    {
      var rejection := Clients.UpdateRejection(clients, id, amazina, telephone);
      if rejection.Some? {
        return Err(rejection.value);
      }
      var current := Find(clients, id).value.data;
      var data := Overwritten(current, amazina, telephone, product, amount);
      assert ClientState(Replace(clients, id, data), nextClientId) by {
        ReplaceWellFormed(clients, nextClientId, id, data);
        ReplaceKeepsClientTelephones(clients, id, data);
      }
      FindReplaced(clients, id, data, id);
      SetClients(Replace(clients, id, data));
      r := Ok(Row(id, data));
    }

    /** DELETE /api/clients/product/:id: one row goes, every sibling row stays. */
    method DeleteProduct(id: nat) returns (rejection: Option<Reason>)
      requires Valid()
      modifies this`clients
      ensures Valid()
      ensures rejection.Some? <==> Find(old(clients), id).None?
      ensures rejection.Some? ==> rejection.value == ProductNotFound && clients == old(clients)
      ensures rejection.None? ==> clients == Remove(old(clients), id) && |clients| == |old(clients)| - 1
    {
      if Find(clients, id).None? {
        return Some(ProductNotFound);
      }
      RemoveWellFormed(clients, nextClientId, id);
      RemoveCount(clients, id);
      SetClients(Remove(clients, id));
      rejection := None;
    }

    /** DELETE /api/clients/:telephone: every row of that telephone goes. */
    method DeleteClient(telephone: string) returns (rejection: Option<Reason>)
      requires Valid()
      modifies this`clients
      ensures Valid()
      ensures rejection.Some? <==> FirstWithTelephone(old(clients), telephone).None?
      ensures rejection.Some? ==> rejection.value == ClientNotFound && clients == old(clients)
      ensures rejection.None? ==> clients == WithoutTelephone(old(clients), telephone)
    {
      if FirstWithTelephone(clients, telephone).None? {
        return Some(ClientNotFound);
      }
      WithoutTelephoneWellFormed(clients, nextClientId, telephone);
      SetClients(WithoutTelephone(clients, telephone));
      rejection := None;
    }

    /**
     * PUT /api/clients/update-balance. `now` is the route's clock and `historyStored` whether the history
     * INSERT that follows succeeds; its failure is only logged, so the reply does not depend on it.
     * The statement's `WHERE telephone = ?` writes the new balance to every row of the telephone
     * (`SetBalance`); `ClientViews.SetBalanceOvercounts` shows what that does to the client's debt.
     */
    method UpdateBalance(telephone: string, additional: Amount, newProduct: string, updatedBy: nat,
                         now: int, historyStored: bool) returns (r: Result<BalanceReply>)
      requires Valid()
      modifies this`clients, this`history, this`nextHistoryId
      ensures Valid()
      ensures r == BalanceUpdate(old(clients), telephone, additional)
      ensures r.Err? ==> clients == old(clients) && history == old(history) && nextHistoryId == old(nextHistoryId)
      ensures r.Ok? ==> clients == SetBalance(old(clients), telephone, r.value.newBalance, updatedBy)
      ensures r.Ok? && historyStored ==>
                history == Insert(old(history), old(nextHistoryId),
                                  BalanceRecord(r.value.client.data, additional, newProduct, updatedBy, now)) &&
                nextHistoryId == old(nextHistoryId) + 1
      ensures r.Ok? && !historyStored ==> history == old(history) && nextHistoryId == old(nextHistoryId)
    {
      r := BalanceUpdate(clients, telephone, additional);
      if r.Err? {
        return;
      }
      var updated := SetBalance(clients, telephone, r.value.newBalance, updatedBy);
      assert ClientState(updated, nextClientId) by {
        SetBalanceKeepsKeys(clients, telephone, r.value.newBalance, updatedBy);
        SameIdsWellFormed(clients, updated, nextClientId);
      }
      SetClients(updated);
      if historyStored {
        var entry := BalanceRecord(r.value.client.data, additional, newProduct, updatedBy, now);
        var id := AppendHistory(entry);
      }
    }

    /** POST /api/history: the reply carries the new row's id. */
    method RecordHistory(abonizeraId: nat, amazina: string, telephone: string, amount: Option<Amount>)
      returns (r: Result<nat>)
      requires Valid()
      modifies this`history, this`nextHistoryId
      ensures Valid()
      ensures r.Err? <==> RecordRejection(abonizeraId, amazina, telephone).Some?
      ensures r.Err? ==> r.reason == MissingFields && history == old(history) && nextHistoryId == old(nextHistoryId)
      ensures r.Ok? ==>
                && r.value == old(nextHistoryId)
                && history == old(history) + [Row(r.value, Payment(abonizeraId, amazina, telephone, amount))]
                && nextHistoryId == old(nextHistoryId) + 1
    {
      var rejection := RecordRejection(abonizeraId, amazina, telephone);
      if rejection.Some? {
        return Err(rejection.value);
      }
      var entry := Payment(abonizeraId, amazina, telephone, amount);
      var id := AppendHistory(entry);
      r := Ok(id);
    }

    /** POST /api/tickets: status 201 and the inserted row. */
    method CreateTicket(amazina: string, telephone: string, description: string) returns (r: Result<Row<Ticket>>)
      requires Valid()
      modifies this`tickets, this`nextTicketId
      ensures Valid()
      ensures r.Err? <==> TicketRejection(amazina, telephone).Some?
      ensures r.Err? ==> r.reason == TicketRejection(amazina, telephone).value &&
                         tickets == old(tickets) && nextTicketId == old(nextTicketId)
      ensures r.Ok? ==>
                && r.value == Row(old(nextTicketId), TicketOf(amazina, telephone, description))
                && tickets == old(tickets) + [r.value]
                && nextTicketId == old(nextTicketId) + 1
                && TicketById(tickets, r.value.id) == Ok(r.value)
    {
      var rejection := TicketRejection(amazina, telephone);
      if rejection.Some? {
        return Err(rejection.value);
      }
      var t := TicketOf(amazina, telephone, description);
      CreateThenGet(tickets, nextTicketId, t);
      var id := AppendTicket(t);
      r := Ok(Row(id, t));
    }

    /** PUT /api/tickets/:id: all three columns are rewritten; the reply is the row read back. */
    method UpdateTicket(id: nat, amazina: string, telephone: string, description: string) returns (r: Result<Row<Ticket>>)
      requires Valid()
      modifies this`tickets
      ensures Valid()
      ensures r.Err? <==> Tickets.UpdateRejection(old(tickets), id, amazina, telephone).Some?
      ensures r.Err? ==> r.reason == Tickets.UpdateRejection(old(tickets), id, amazina, telephone).value && tickets == old(tickets)
      ensures r.Ok? ==>
                && r.value == Row(id, TicketOf(amazina, telephone, description))
                && tickets == Replace(old(tickets), id, r.value.data)
                && TicketById(tickets, id) == Ok(r.value)
    {
      var rejection := Tickets.UpdateRejection(tickets, id, amazina, telephone);
      if rejection.Some? {
        return Err(rejection.value);
      }
      var t := TicketOf(amazina, telephone, description);
      assert TicketState(Replace(tickets, id, t), nextTicketId) by {
        ReplaceWellFormed(tickets, nextTicketId, id, t);
        ReplaceKeepsTicketTelephones(tickets, id, t);
      }
      UpdateThenGet(tickets, id, t);
      SetTickets(Replace(tickets, id, t));
      r := Ok(Row(id, t));
    }

    /** DELETE /api/tickets/:id */
    method DeleteTicket(id: nat) returns (rejection: Option<Reason>)
      requires Valid()
      modifies this`tickets
      ensures Valid()
      ensures rejection.Some? <==> TicketById(old(tickets), id).Err?
      ensures rejection.Some? ==> rejection.value == TicketNotFound && tickets == old(tickets)
      ensures rejection.None? ==> tickets == Remove(old(tickets), id) && TicketById(tickets, id).Err?
    {
      if Find(tickets, id).None? {
        return Some(TicketNotFound);
      }
      RemoveWellFormed(tickets, nextTicketId, id);
      SetTickets(Remove(tickets, id));
      rejection := None;
    }
  }
}
