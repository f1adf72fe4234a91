/**
 * The `users` table and the end-user account handlers that only read it:
 * the ordered checks of signup, login, and the token checks of the
 * forgot-password / reset-password flow. The handlers that write the table
 * are methods of Server.Store.
 */
module Accounts {
  import opened Wrappers
  import opened Responses
  import opened Tables
  import opened Validation
  import opened Hashing

  /** A `users` row besides its id; `aho_uherereye` is `location`. Absent timestamps are not modelled. */
  datatype User = User(
    amazina: string,
    refTelephone: string,
    location: string,
    telephone: string,
    pin: Digest,
    resetToken: Option<int>,
    resetExpiry: Option<int>)

  /** The `user` object of the signup and login responses: the row without its PIN (nor its token). */
  datatype UserView = UserView(id: nat, amazina: string, refTelephone: string, location: string, telephone: string)

  /** How long a reset token stays valid: 10 minutes, in milliseconds. */
  const TokenLifetime: int := 10 * 60 * 1000

  /** The range of `Math.floor(100000 + Math.random() * 900000)`: six decimal digits. */
  predicate IsToken(t: int)
  {
    100000 <= t <= 999999
  }

  function View(row: Row<User>): UserView
  {
    UserView(row.id, row.data.amazina, row.data.refTelephone, row.data.location, row.data.telephone)
  }

  /** SELECT ... FROM users WHERE telephone = ?: the first such user. */
  function FindByTelephone(users: seq<Row<User>>, telephone: string): (r: Option<Row<User>>)
    ensures r.None? <==> forall i :: 0 <= i < |users| ==> users[i].data.telephone != telephone
    ensures r.Some? ==> exists k :: 0 <= k < |users| && users[k] == r.value &&
                                    r.value.data.telephone == telephone &&
                                    forall j :: 0 <= j < k ==> users[j].data.telephone != telephone
  {
    if users == [] then None
    else if users[0].data.telephone == telephone then Some(users[0])
    else
      var r := FindByTelephone(users[1..], telephone);
      assert forall i :: 1 <= i < |users| ==> users[i] == users[1..][i - 1];
      r
  }

  /** No two users share a telephone: what signup's duplicate check maintains. */
  ghost predicate TelephonesUnique(users: seq<Row<User>>)
  {
    forall i, j :: 0 <= i < j < |users| ==> users[i].data.telephone != users[j].data.telephone
  }

  /** The checks of POST /api/signup, in the order the handler makes them; None lets the insert go ahead. */
  function SignupRejection(users: seq<Row<User>>, amazina: string, refTelephone: string, telephone: string, pin: string)
    : (r: Option<Reason>)
    ensures r.None? <==>
              Present(amazina) && Present(refTelephone) && Present(telephone) && Present(pin) &&
              IsPin(pin) && IsTelephone(telephone) &&
              forall i :: 0 <= i < |users| ==> users[i].data.telephone != telephone
    ensures r == Some(MissingFields) <==>
              !Present(amazina) || !Present(refTelephone) || !Present(telephone) || !Present(pin)
    ensures r == Some(BadPin) <==>
              Present(amazina) && Present(refTelephone) && Present(telephone) && Present(pin) && !IsPin(pin)
    ensures r == Some(BadTelephone) <==>
              Present(amazina) && Present(refTelephone) && Present(telephone) && Present(pin) &&
              IsPin(pin) && !IsTelephone(telephone)
    ensures r == Some(TelephoneTaken) <==>
              Present(amazina) && Present(refTelephone) && Present(telephone) && Present(pin) &&
              IsPin(pin) && IsTelephone(telephone) &&
              exists i :: 0 <= i < |users| && users[i].data.telephone == telephone
    ensures r.Some? ==> Status(r.value) == 400
  {
    if !Present(amazina) || !Present(refTelephone) || !Present(telephone) || !Present(pin) then Some(MissingFields)
    else if !IsPin(pin) then Some(BadPin)
    else if !IsTelephone(telephone) then Some(BadTelephone)
    else if FindByTelephone(users, telephone).Some? then Some(TelephoneTaken)
    else None
  }

  /** The row signup inserts: the PIN hashed, no reset token. */
  function NewUser(amazina: string, refTelephone: string, location: string, telephone: string, pin: string): (u: User)
    ensures Verifies(pin, u.pin) && u.resetToken.None? && u.resetExpiry.None?
  {
    User(amazina, refTelephone, location, telephone, Hash(pin), None, None)
  }

  /** POST /api/login. The telephone format is not checked here, only the PIN's. */
  function Login(users: seq<Row<User>>, telephone: string, pin: string): (r: Result<UserView>)
    ensures r == Err(MissingFields) <==> !Present(telephone) || !Present(pin)
    ensures r == Err(BadPin) <==> Present(telephone) && Present(pin) && !IsPin(pin)
    ensures r == Err(UnknownTelephone) <==>
              Present(telephone) && IsPin(pin) && forall i :: 0 <= i < |users| ==> users[i].data.telephone != telephone
    ensures r.Ok? ==> exists i :: 0 <= i < |users| && users[i].data.telephone == telephone &&
                                  Verifies(pin, users[i].data.pin) && r.value == View(users[i])
    ensures r.Err? ==> Status(r.reason) == 400 && r.reason in {MissingFields, BadPin, UnknownTelephone, WrongPin}
  {
    if !Present(telephone) || !Present(pin) then Err(MissingFields)
    else if !IsPin(pin) then Err(BadPin)
    else match FindByTelephone(users, telephone)
      case None => Err(UnknownTelephone)
      case Some(u) => if Verifies(pin, u.data.pin) then Ok(View(u)) else Err(WrongPin)
  }

  /** UPDATE users SET reset_token = ?, reset_token_expiry = ? WHERE telephone = ? */
  function IssueToken(users: seq<Row<User>>, telephone: string, token: int, expiry: int): (r: seq<Row<User>>)
    ensures |r| == |users|
    ensures forall i :: 0 <= i < |users| ==>
              r[i] == (if users[i].data.telephone == telephone
                       then users[i].(data := users[i].data.(resetToken := Some(token), resetExpiry := Some(expiry)))
                       else users[i])
  {
    if users == [] then []
    else
      var u := users[0];
      [if u.data.telephone == telephone then u.(data := u.data.(resetToken := Some(token), resetExpiry := Some(expiry))) else u]
        + IssueToken(users[1..], telephone, token, expiry)
  }

  /** UPDATE users SET pin = ?, reset_token = NULL, reset_token_expiry = NULL WHERE telephone = ? */
  function ResetPin(users: seq<Row<User>>, telephone: string, pin: Digest): (r: seq<Row<User>>)
    ensures |r| == |users|
    ensures forall i :: 0 <= i < |users| ==>
              r[i] == (if users[i].data.telephone == telephone
                       then users[i].(data := users[i].data.(pin := pin, resetToken := None, resetExpiry := None))
                       else users[i])
  {
    if users == [] then []
    else
      var u := users[0];
      [if u.data.telephone == telephone then u.(data := u.data.(pin := pin, resetToken := None, resetExpiry := None)) else u]
        + ResetPin(users[1..], telephone, pin)
  }

  /** The row a user's reset token is checked against: that telephone, that token, expiry still in the future. */
  predicate TokenValidAt(u: User, telephone: string, token: int, now: int)
  {
    u.telephone == telephone && u.resetToken == Some(token) && u.resetExpiry.Some? && u.resetExpiry.value > now
  }

  /** SELECT ... WHERE telephone = ? AND reset_token = ? AND reset_token_expiry > ? finds a row. */
  predicate TokenMatches(users: seq<Row<User>>, telephone: string, token: int, now: int)
  {
    exists i :: 0 <= i < |users| && TokenValidAt(users[i].data, telephone, token, now)
  }

  /** The checks of POST /api/reset-password, in order: the new PIN's format first, then the token. */
  function ResetRejection(users: seq<Row<User>>, telephone: string, token: int, newPin: string, now: int)
    : (r: Option<Reason>)
    ensures r == Some(BadNewPin) <==> !IsPin(newPin)
    ensures r.None? <==> IsPin(newPin) && TokenMatches(users, telephone, token, now)
    ensures r == Some(InvalidToken) <==> IsPin(newPin) && !TokenMatches(users, telephone, token, now)
    ensures r.Some? ==> Status(r.value) == 400
  {
    if !IsPin(newPin) then Some(BadNewPin)
    else if !TokenMatches(users, telephone, token, now) then Some(InvalidToken)
    else None
  }

  /** Inserting a user whose telephone is new keeps telephones unique. */
  lemma InsertKeepsTelephonesUnique(users: seq<Row<User>>, next: nat, u: User)
    requires TelephonesUnique(users)
    requires forall i :: 0 <= i < |users| ==> users[i].data.telephone != u.telephone
    ensures TelephonesUnique(Insert(users, next, u))
  {
  }

  /** With one user per telephone, login succeeds exactly for a present telephone, a well-formed PIN and the PIN that user set. */
  lemma LoginSucceedsIff(users: seq<Row<User>>, telephone: string, pin: string)
    requires TelephonesUnique(users)
    ensures Login(users, telephone, pin).Ok? <==>
              Present(telephone) && IsPin(pin) &&
              exists i :: 0 <= i < |users| && users[i].data.telephone == telephone && Verifies(pin, users[i].data.pin)
  {
    if Present(telephone) && IsPin(pin) && FindByTelephone(users, telephone).Some? {
      var k :| 0 <= k < |users| && users[k] == FindByTelephone(users, telephone).value;
      assert forall i :: 0 <= i < |users| && users[i].data.telephone == telephone ==> i == k;
    }
  }

  /** A user who has just signed up can log in with the telephone and PIN they signed up with. */
  lemma SignupThenLogin(users: seq<Row<User>>, next: nat, amazina: string, refTelephone: string, location: string,
                        telephone: string, pin: string)
    requires SignupRejection(users, amazina, refTelephone, telephone, pin).None?
    ensures Login(Insert(users, next, NewUser(amazina, refTelephone, location, telephone, pin)), telephone, pin)
            == Ok(UserView(next, amazina, refTelephone, location, telephone))
  {
    var after := Insert(users, next, NewUser(amazina, refTelephone, location, telephone, pin));
    var found := FindByTelephone(after, telephone);
    var k :| 0 <= k < |after| && after[k] == found.value && found.value.data.telephone == telephone;
    assert k == |users|;
  }

  /** A token just issued lets its owner reset the PIN at any time before it expires. */
  lemma IssuedTokenAccepted(users: seq<Row<User>>, telephone: string, token: int, issuedAt: int, now: int, newPin: string)
    requires FindByTelephone(users, telephone).Some?
    requires now < issuedAt + TokenLifetime && IsPin(newPin)
    ensures ResetRejection(IssueToken(users, telephone, token, issuedAt + TokenLifetime), telephone, token, newPin, now).None?
  {
    var k :| 0 <= k < |users| && users[k] == FindByTelephone(users, telephone).value;
    var after := IssueToken(users, telephone, token, issuedAt + TokenLifetime);
    assert TokenValidAt(after[k].data, telephone, token, now);
  }

  /** Once the ten minutes are over, the token issued for a telephone is refused. */
  lemma IssuedTokenExpires(users: seq<Row<User>>, telephone: string, token: int, issuedAt: int, now: int, newPin: string)
    requires now >= issuedAt + TokenLifetime
    ensures ResetRejection(IssueToken(users, telephone, token, issuedAt + TokenLifetime), telephone, token, newPin, now).Some?
  {
    var after := IssueToken(users, telephone, token, issuedAt + TokenLifetime);
    forall i | 0 <= i < |after| ensures !TokenValidAt(after[i].data, telephone, token, now) {
    }
  }

  /** A successful reset clears the token, so the same token (or any other) cannot be used again for that telephone. */
  lemma ResetConsumesToken(users: seq<Row<User>>, telephone: string, pin: Digest, token: int, now: int, newPin: string)
    ensures !TokenMatches(ResetPin(users, telephone, pin), telephone, token, now)
    ensures ResetRejection(ResetPin(users, telephone, pin), telephone, token, newPin, now).Some?
  {
    var after := ResetPin(users, telephone, pin);
    forall i | 0 <= i < |after| ensures !TokenValidAt(after[i].data, telephone, token, now) {
    }
  }

  /** After a reset, the new PIN opens the account (given the telephone has a user). */
  lemma ResetThenLogin(users: seq<Row<User>>, telephone: string, newPin: string)
    requires FindByTelephone(users, telephone).Some? && Present(telephone) && IsPin(newPin)
    ensures Login(ResetPin(users, telephone, Hash(newPin)), telephone, newPin).Ok?
  {
    ResetPinFindsDigest(users, telephone, Hash(newPin));
  }

  /** After a reset, looking the telephone up again finds a row holding the new digest. */
  lemma ResetPinFindsDigest(users: seq<Row<User>>, telephone: string, pin: Digest)
    requires FindByTelephone(users, telephone).Some?
    ensures FindByTelephone(ResetPin(users, telephone, pin), telephone).Some?
    ensures FindByTelephone(ResetPin(users, telephone, pin), telephone).value.data.pin == pin
  {
    var after := ResetPin(users, telephone, pin);
    var found := FindByTelephone(after, telephone);
    assert found.Some? by {
      var k :| 0 <= k < |users| && users[k] == FindByTelephone(users, telephone).value;
      assert after[k].data.telephone == telephone;
    }
    var k :| 0 <= k < |after| && after[k] == found.value && found.value.data.telephone == telephone;
    assert after[k].data.pin == pin;
  }

  /** Issuing a token or resetting a PIN touches no telephone, so uniqueness of telephones survives both. */
  lemma TokenUpdatesKeepTelephones(users: seq<Row<User>>, telephone: string, token: int, expiry: int, pin: Digest)
    ensures forall i :: 0 <= i < |users| ==>
              IssueToken(users, telephone, token, expiry)[i].id == users[i].id &&
              IssueToken(users, telephone, token, expiry)[i].data.telephone == users[i].data.telephone &&
              ResetPin(users, telephone, pin)[i].id == users[i].id &&
              ResetPin(users, telephone, pin)[i].data.telephone == users[i].data.telephone
  {
  }
}
