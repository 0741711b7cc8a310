/** AuthService: login, logout and refresh-token rotation over the member table and the
    refresh-token store. JwtUtil and the password encoder are parameters: signing,
    parsing and hashing are not modelled, only what their results are used for. */
module Auth {
  import opened Wrappers
  import opened Errors
  import opened KeyValue
  import opened Members
  import opened RefreshTokens

  /** The JwtUtil operations the services call: validateToken, the "type", "memberId" and
      subject claims, and token generation for (email, memberId) at a time. A null memberId
      claim is None. */
  datatype JwtUtil = JwtUtil(
    validateToken: string -> bool,
    tokenType: string -> Option<string>,
    memberIdOf: string -> Option<nat>,
    emailOf: string -> string,
    generateAccessToken: (string, nat, nat) -> string,
    generateRefreshToken: (string, nat, nat) -> string)

  /** isRefreshToken(token): the "type" claim is "refresh". */
  predicate IsRefreshToken(jwt: JwtUtil, token: string) {
    jwt.tokenType(token) == Some("refresh")
  }

  /** What JwtUtil guarantees of the refresh tokens it generates: they validate, are of type
      refresh, and carry the member id and email they were generated for. */
  ghost predicate IssuesRefreshTokens(jwt: JwtUtil) {
    forall e: string, m: nat, t: nat ::
      && jwt.validateToken(jwt.generateRefreshToken(e, m, t))
      && IsRefreshToken(jwt, jwt.generateRefreshToken(e, m, t))
      && jwt.memberIdOf(jwt.generateRefreshToken(e, m, t)) == Some(m)
      && jwt.emailOf(jwt.generateRefreshToken(e, m, t)) == e
  }

  /** AuthResponseDTO.Login: the two tokens and the member they were issued to. */
  datatype LoginResult = LoginResult(accessToken: string, refreshToken: string, member: Member)

  /** AuthResponseDTO.RefreshToken: the reissued pair. */
  datatype Reissued = Reissued(accessToken: string, refreshToken: string)

  /** login's checks and result: the member found by email (an unknown email is
      MEMBER_NOT_FOUND), then EMAIL_NOT_VERIFIED before the password is looked at, then
      INVALID_CREDENTIALS; a success carries tokens generated for that member at now. */
  function LoginOutcome(rows: seq<Member>, matches: (string, string) -> bool, jwt: JwtUtil,
                        email: string, password: string, now: nat): (r: Result<LoginResult, Failure>)
    ensures FindByEmail(rows, email).Err? ==> r == Err(FindByEmail(rows, email).error)
    ensures FindByEmail(rows, email) == Ok(None) ==> r == Err(AuthErr(AuthMemberNotFound))
    ensures FindByEmail(rows, email).Ok? && FindByEmail(rows, email).value.Some? ==>
      var m := FindByEmail(rows, email).value.value;
      && (!m.isEmailVerified ==> r == Err(AuthErr(AuthEmailNotVerified)))
      && (m.isEmailVerified && !matches(password, m.password) ==> r == Err(AuthErr(InvalidCredentials)))
      && (m.isEmailVerified && matches(password, m.password) ==>
            r == Ok(LoginResult(jwt.generateAccessToken(m.email, m.id, now),
                                jwt.generateRefreshToken(m.email, m.id, now), m)))
  {
    match FindByEmail(rows, email)
    case Err(e) => Err(e)
    case Ok(None) => Err(AuthErr(AuthMemberNotFound))
    case Ok(Some(m)) =>
      if !m.isEmailVerified then Err(AuthErr(AuthEmailNotVerified))
      else if !matches(password, m.password) then Err(AuthErr(InvalidCredentials))
      else Ok(LoginResult(jwt.generateAccessToken(m.email, m.id, now), jwt.generateRefreshToken(m.email, m.id, now), m))
  }

  /** With unique emails, login succeeds exactly when a verified member with that email
      has a password the given one matches, and it then logs in that member. */
  lemma LoginSucceedsIff(rows: seq<Member>, matches: (string, string) -> bool, jwt: JwtUtil,
                         email: string, password: string, now: nat)
    requires UniqueEmails(rows)
    ensures LoginOutcome(rows, matches, jwt, email, password, now).Ok? <==>
      exists k | 0 <= k < |rows| :: rows[k].email == email && rows[k].isEmailVerified && matches(password, rows[k].password)
    ensures LoginOutcome(rows, matches, jwt, email, password, now).Ok? ==>
      LoginOutcome(rows, matches, jwt, email, password, now).value.member in rows
  {
    WithEmailCount(rows, email);
    var r := FindByEmail(rows, email);
    if r.Ok? && r.value.Some? {
      var m := r.value.value;
      forall k | 0 <= k < |rows| && rows[k].email == email ensures rows[k] == m {
        var i :| 0 <= i < |rows| && rows[i] == m;
        if i != k {
          assert false;
        }
      }
    }
  }

  /** login(request): a failure leaves the token store as it was; a success leaves exactly
      the new refresh token stored for the member, whatever was stored before. */
  method Login(members: MemberTable, store: Store, matches: (string, string) -> bool, jwt: JwtUtil,
               email: string, password: string, now: nat)
    returns (r: Result<LoginResult, Failure>)
    modifies store
    ensures r == LoginOutcome(members.rows, matches, jwt, email, password, now)
    ensures r.Err? ==> store.entries == old(store.entries)
    ensures r.Ok? ==> store.entries == old(store.entries)[TokenKey(r.value.member.id) := r.value.refreshToken]
  {
    var found := FindByEmail(members.rows, email);
    if found.Err? {
      return Err(found.error);
    }
    if found.value.None? {
      return Err(AuthErr(AuthMemberNotFound));
    }
    var member := found.value.value;
    if !member.isEmailVerified {
      return Err(AuthErr(AuthEmailNotVerified));
    }
    if !matches(password, member.password) {
      return Err(AuthErr(InvalidCredentials));
    }
    var accessToken := jwt.generateAccessToken(member.email, member.id, now);
    var refreshToken := jwt.generateRefreshToken(member.email, member.id, now);
    if ExistsRefreshToken(store.entries, member.id) {
      DeleteRefreshToken(store, member.id);
    }
    SaveRefreshToken(store, member.id, refreshToken);
    r := Ok(LoginResult(accessToken, refreshToken, member));
  }

  /** logout(memberId): the member's refresh token is deleted, present or not. */
  method Logout(store: Store, memberId: nat) returns (message: string)
    modifies store
    ensures store.entries == old(store.entries) - {TokenKey(memberId)}
    ensures message == "로그아웃되었습니다"
  {
    DeleteRefreshToken(store, memberId);
    message := "로그아웃되었습니다";
  }

  /** The try block of refreshToken: an invalid token, then a token that is not a refresh
      token, are INVALID_TOKEN; a token that is not the one stored for its member (a null
      memberId claim included) is REFRESH_TOKEN_MISMATCH; an unknown member is
      MEMBER_NOT_FOUND; otherwise the member id and a pair generated at now. */
  function RefreshAttempt(rows: seq<Member>, entries: map<string, string>, jwt: JwtUtil, token: string, now: nat)
    : (r: Result<(nat, Reissued), Failure>)
    ensures !jwt.validateToken(token) || !IsRefreshToken(jwt, token) ==> r == Err(AuthErr(InvalidToken))
    ensures r.Ok? <==>
      && jwt.validateToken(token) && IsRefreshToken(jwt, token)
      && jwt.memberIdOf(token).Some? && ValidateRefreshToken(entries, jwt.memberIdOf(token).value, token)
      && FindById(rows, jwt.memberIdOf(token).value).Some?
    ensures r.Ok? ==>
      var m := jwt.memberIdOf(token).value;
      var e := jwt.emailOf(token);
      r.value == (m, Reissued(jwt.generateAccessToken(e, m, now), jwt.generateRefreshToken(e, m, now)))
  {
    if !jwt.validateToken(token) then Err(AuthErr(InvalidToken))
    else if !IsRefreshToken(jwt, token) then Err(AuthErr(InvalidToken))
    else
      var memberId := jwt.memberIdOf(token);
      var email := jwt.emailOf(token);
      if memberId.None? || !ValidateRefreshToken(entries, memberId.value, token) then Err(AuthErr(RefreshTokenMismatch))
      else if FindById(rows, memberId.value).None? then Err(AuthErr(AuthMemberNotFound))
      else Ok((memberId.value, Reissued(jwt.generateAccessToken(email, memberId.value, now),
                                        jwt.generateRefreshToken(email, memberId.value, now))))
  }

  /** refreshToken(request): the catch-all turns every failure of the attempt, the
      mismatch and the unknown member included, into INVALID_TOKEN. */
  function RefreshOutcome(rows: seq<Member>, entries: map<string, string>, jwt: JwtUtil, token: string, now: nat)
    : (r: Result<Reissued, Failure>)
    ensures r.Err? ==> r.error == AuthErr(InvalidToken)
    ensures r.Ok? <==> RefreshAttempt(rows, entries, jwt, token, now).Ok?
    ensures r.Ok? ==> r.value == RefreshAttempt(rows, entries, jwt, token, now).value.1
  {
    match RefreshAttempt(rows, entries, jwt, token, now)
    case Ok((_, pair)) => Ok(pair)
    case Err(_) => Err(AuthErr(InvalidToken))
  }

  /** refreshToken(request): a failure leaves the store as it was; a success deletes the
      member's token and saves the new one in its place. */
  method Refresh(members: MemberTable, store: Store, jwt: JwtUtil, token: string, now: nat)
    returns (r: Result<Reissued, Failure>)
    modifies store
    ensures r == RefreshOutcome(members.rows, old(store.entries), jwt, token, now)
    ensures r.Err? ==> store.entries == old(store.entries)
    ensures r.Ok? ==> store.entries == old(store.entries)[TokenKey(jwt.memberIdOf(token).value) := r.value.refreshToken]
  {
    if !jwt.validateToken(token) || !IsRefreshToken(jwt, token) {
      return Err(AuthErr(InvalidToken));
    }
    var memberId := jwt.memberIdOf(token);
    var email := jwt.emailOf(token);
    if memberId.None? || !ValidateRefreshToken(store.entries, memberId.value, token) {
      return Err(AuthErr(InvalidToken));
    }
    if FindById(members.rows, memberId.value).None? {
      return Err(AuthErr(InvalidToken));
    }
    var accessToken := jwt.generateAccessToken(email, memberId.value, now);
    var refreshToken := jwt.generateRefreshToken(email, memberId.value, now);
    DeleteRefreshToken(store, memberId.value);
    SaveRefreshToken(store, memberId.value, refreshToken);
    r := Ok(Reissued(accessToken, refreshToken));
  }

  /** A successful refresh rotates the token: the new token is then accepted, and the old
      one is accepted again only if the new token happens to equal it. */
  lemma RefreshRotates(rows: seq<Member>, entries: map<string, string>, jwt: JwtUtil, token: string, now: nat, later: nat)
    requires IssuesRefreshTokens(jwt)
    requires RefreshOutcome(rows, entries, jwt, token, now).Ok?
    ensures var m := jwt.memberIdOf(token).value;
      var issued := RefreshOutcome(rows, entries, jwt, token, now).value.refreshToken;
      var after := entries[TokenKey(m) := issued];
      && RefreshOutcome(rows, after, jwt, issued, later).Ok?
      && (RefreshOutcome(rows, after, jwt, token, later).Ok? <==> issued == token)
  {
    var m := jwt.memberIdOf(token).value;
    var e := jwt.emailOf(token);
    var issued := jwt.generateRefreshToken(e, m, now);
    assert jwt.validateToken(issued) && IsRefreshToken(jwt, issued) && jwt.memberIdOf(issued) == Some(m);
    SaveThenValidate(entries, m, issued, token);
    SaveThenValidate(entries, m, issued, issued);
  }

  /** The refresh token a login issues is accepted by a later refresh, as long as JwtUtil
      issues well-formed refresh tokens. */
  lemma LoginThenRefresh(rows: seq<Member>, entries: map<string, string>, matches: (string, string) -> bool,
                         jwt: JwtUtil, email: string, password: string, now: nat, later: nat)
    requires IssuesRefreshTokens(jwt)
    requires LoginOutcome(rows, matches, jwt, email, password, now).Ok?
    ensures var login := LoginOutcome(rows, matches, jwt, email, password, now).value;
      RefreshOutcome(rows, entries[TokenKey(login.member.id) := login.refreshToken], jwt, login.refreshToken, later).Ok?
  {
    var login := LoginOutcome(rows, matches, jwt, email, password, now).value;
    var m := login.member;
    var t := login.refreshToken;
    assert t == jwt.generateRefreshToken(m.email, m.id, now);
    assert jwt.memberIdOf(t) == Some(m.id);
    SaveThenValidate(entries, m.id, t, t);
    var i :| 0 <= i < |rows| && rows[i] == m;
    assert rows[i].id == m.id;
  }

  /** After logout no refresh token of that member is accepted. */
  lemma LogoutRevokes(rows: seq<Member>, entries: map<string, string>, jwt: JwtUtil, memberId: nat, token: string, now: nat)
    requires jwt.memberIdOf(token) == Some(memberId)
    ensures RefreshOutcome(rows, entries - {TokenKey(memberId)}, jwt, token, now) == Err(AuthErr(InvalidToken))
  {
    SaveThenValidate(entries, memberId, token, token);
  }
}
