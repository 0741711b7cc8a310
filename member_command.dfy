/** MemberCommandService: the signup flow over the email-verification store and the member
    table, the account-scope and password changes of a loaded member, and the profile image
    replacement with its S3 key handling. The password encoder, JwtUtil and the S3 client
    are parameters. */
module MemberCommand {
  import opened Wrappers
  import opened Errors
  import opened Text
  import opened KeyValue
  import opened Members
  import opened EmailVerification
  import opened RefreshTokens
  import opened Auth
  import opened ImageValidation

  const CodeSentMessage: string := "인증번호가 이메일로 발송되었습니다"
  const EmailVerifiedMessage: string := "이메일 인증이 완료되었습니다"
  const ResetCodeSentMessage: string := "비밀번호 변경용 인증번호가 이메일로 발송되었습니다"
  const ResetCodeVerifiedMessage: string := "인증번호 확인이 완료되었습니다"
  const PasswordChangedMessage: string := "비밀번호가 성공적으로 변경되었습니다"
  const ProfileImageMessage: string := "프로필 이미지가 성공적으로 업데이트되었습니다"

  /** sendEmailVerification(request): a registered email is EMAIL_ALREADY_EXISTS and no code
      is generated; otherwise a fresh code is stored for the email and nothing else changes. */
  method SendEmailVerification(members: MemberTable, store: Store, email: string, draws: seq<nat>)
    returns (r: Result<string, Failure>)
    requires |draws| == CodeLength && forall i | 0 <= i < |draws| :: draws[i] < 10
    modifies store
    ensures ExistsByEmail(members.rows, email) ==>
      r == Err(MemberErr(EmailAlreadyExists)) && store.entries == old(store.entries)
    ensures !ExistsByEmail(members.rows, email) ==>
      && r == Ok(CodeSentMessage)
      && CodeKey(email) in store.entries
      && IsCode(store.entries[CodeKey(email)])
      && (forall i | 0 <= i < CodeLength :: DigitValue(store.entries[CodeKey(email)][i]) == draws[i])
      && store.entries == old(store.entries)[CodeKey(email) := store.entries[CodeKey(email)]]
  {
    if ExistsByEmail(members.rows, email) {
      return Err(MemberErr(EmailAlreadyExists));
    }
    var code := GenerateAndSaveVerificationCode(store, email, draws);
    r := Ok(CodeSentMessage);
  }

  /** verifyEmail(request): the outcome of verifyCode, whose failures pass through. Since
      verifyCode never answers false, the EMAIL_VERIFICATION_FAILED branch is dead: no call
      ends with that code. */
  method VerifyEmail(store: Store, email: string, code: string) returns (r: Result<string, Failure>)
    modifies store
    ensures r.Ok? <==> VerifyOutcome(old(store.entries), email, code).Ok?
    ensures r.Ok? ==> r.value == EmailVerifiedMessage && store.entries == Verified(old(store.entries), email)
    ensures r.Err? ==> r.error == VerifyOutcome(old(store.entries), email, code).error
                       && store.entries == old(store.entries)
    ensures r != Err(MemberErr(EmailVerificationFailed))
  {
    var verified := VerifyCode(store, email, code);
    if verified.Err? {
      return Err(verified.error);
    }
    if !verified.value {
      assert false;
    }
    r := Ok(EmailVerifiedMessage);
  }

  /** signUp's guards, in order: the email must carry the verified flag
      (EMAIL_NOT_VERIFIED), must not be registered (EMAIL_ALREADY_EXISTS), and the nickname
      must be free (NICKNAME_ALREADY_EXISTS). None when all pass. */
  function SignUpRejection(rows: seq<Member>, entries: map<string, string>, email: string, nickname: string)
    : (r: Option<Failure>)
    ensures r.None? <==> IsEmailVerified(entries, email) && !ExistsByEmail(rows, email) && !ExistsByNickname(rows, nickname)
    ensures !IsEmailVerified(entries, email) ==> r == Some(MemberErr(EmailNotVerified))
    ensures IsEmailVerified(entries, email) && ExistsByEmail(rows, email) ==> r == Some(MemberErr(EmailAlreadyExists))
    ensures IsEmailVerified(entries, email) && !ExistsByEmail(rows, email) && ExistsByNickname(rows, nickname) ==>
      r == Some(MemberErr(NicknameAlreadyExists))
  {
    if !IsEmailVerified(entries, email) then Some(MemberErr(EmailNotVerified))
    else if ExistsByEmail(rows, email) then Some(MemberErr(EmailAlreadyExists))
    else if ExistsByNickname(rows, nickname) then Some(MemberErr(NicknameAlreadyExists))
    else None
  }

  /** The member signUp builds: public, email verified, no profile image. */
  function NewMember(id: nat, email: string, encodedPassword: string, nickname: string): Member {
    Member(id, email, encodedPassword, nickname, None, Public, true)
  }

  /** MemberResponseDTO.SignUp: the new member and the tokens issued to it. */
  datatype SignedUp = SignedUp(memberId: nat, email: string, nickname: string, accessToken: string, refreshToken: string)

  /** signUp(request) as written: a rejection changes nothing; a success saves the member
      under the next id, records the refresh token only as a member_token row, and removes
      the verified flag. The refresh-token store is not written. */
  method SignUp(members: MemberTable, store: Store, jwt: JwtUtil, encode: string -> string,
                email: string, password: string, nickname: string, now: nat)
    returns (r: Result<SignedUp, Failure>)
    requires members.Valid()
    modifies members, store
    ensures members.Valid()
    ensures SignUpRejection(old(members.rows), old(store.entries), email, nickname).Some? ==>
      && r == Err(SignUpRejection(old(members.rows), old(store.entries), email, nickname).value)
      && members.rows == old(members.rows) && members.tokens == old(members.tokens)
      && members.nextId == old(members.nextId) && store.entries == old(store.entries)
    ensures SignUpRejection(old(members.rows), old(store.entries), email, nickname).None? ==>
      var id := old(members.nextId);
      var refresh := jwt.generateRefreshToken(email, id, now);
      && r == Ok(SignedUp(id, email, nickname, jwt.generateAccessToken(email, id, now), refresh))
      && members.rows == old(members.rows) + [NewMember(id, email, encode(password), nickname)]
      && members.tokens == old(members.tokens) + [MemberToken(id, refresh, false)]
      && members.nextId == id + 1
      && store.entries == old(store.entries) - {FlagKey(email)}
  {
    if !IsEmailVerified(store.entries, email) {
      return Err(MemberErr(EmailNotVerified));
    }
    if ExistsByEmail(members.rows, email) {
      return Err(MemberErr(EmailAlreadyExists));
    }
    if ExistsByNickname(members.rows, nickname) {
      return Err(MemberErr(NicknameAlreadyExists));
    }
    var saved := members.Insert(NewMember(0, email, encode(password), nickname));
    var accessToken := jwt.generateAccessToken(saved.email, saved.id, now);
    var refreshToken := jwt.generateRefreshToken(saved.email, saved.id, now);
    members.AddToken(MemberToken(saved.id, refreshToken, false));
    RemoveVerifiedFlag(store, email);
    r := Ok(SignedUp(saved.id, email, nickname, accessToken, refreshToken));
  }

  /** A signup keeps emails unique, and the new member can log in with the password it
      chose (given an encoder whose output the matcher accepts). */
  lemma SignUpThenLogin(rows: seq<Member>, entries: map<string, string>, matches: (string, string) -> bool,
                        encode: string -> string, jwt: JwtUtil, id: nat, email: string, password: string,
                        nickname: string, later: nat)
    requires UniqueEmails(rows)
    requires SignUpRejection(rows, entries, email, nickname).None?
    requires matches(password, encode(password))
    ensures UniqueEmails(rows + [NewMember(id, email, encode(password), nickname)])
    ensures var after := rows + [NewMember(id, email, encode(password), nickname)];
      && LoginOutcome(after, matches, jwt, email, password, later).Ok?
      && LoginOutcome(after, matches, jwt, email, password, later).value.member == NewMember(id, email, encode(password), nickname)
  {
    var m := NewMember(id, email, encode(password), nickname);
    var after := rows + [m];
    InsertKeepsEmailsUnique(rows, m);
    LoginSucceedsIff(after, matches, jwt, email, password, later);
    assert after[|rows|] == m;
    var found := LoginOutcome(after, matches, jwt, email, password, later).value.member;
    var i :| 0 <= i < |after| && after[i] == found;
    assert forall j | 0 <= j < |rows| :: after[j] == rows[j];
    assert i == |rows|;
  }

  /** The refresh token signUp returns is refused by the refresh endpoint: signUp never puts
      it in the refresh-token store, so for a new member (no stored token under its id) the
      refresh attempt ends in REFRESH_TOKEN_MISMATCH, reported as INVALID_TOKEN. */
  lemma SignUpRefreshTokenRejected(rows: seq<Member>, entries: map<string, string>, jwt: JwtUtil,
                                   id: nat, email: string, now: nat, later: nat)
    requires IssuesRefreshTokens(jwt)
    requires TokenKey(id) !in entries
    ensures RefreshAttempt(rows, entries, jwt, jwt.generateRefreshToken(email, id, now), later)
            == Err(AuthErr(RefreshTokenMismatch))
    ensures RefreshOutcome(rows, entries, jwt, jwt.generateRefreshToken(email, id, now), later)
            == Err(AuthErr(InvalidToken))
  {
    var t := jwt.generateRefreshToken(email, id, now);
    assert jwt.validateToken(t) && IsRefreshToken(jwt, t) && jwt.memberIdOf(t) == Some(id);
  }

  /** signUp as evidently intended: as written, and the new refresh token is also saved in
      the refresh-token store, as login does. */
  method SignUpWithSession(members: MemberTable, store: Store, jwt: JwtUtil, encode: string -> string,
                           email: string, password: string, nickname: string, now: nat)
    returns (r: Result<SignedUp, Failure>)
    requires members.Valid()
    modifies members, store
    ensures members.Valid()
    ensures SignUpRejection(old(members.rows), old(store.entries), email, nickname).Some? ==>
      && r == Err(SignUpRejection(old(members.rows), old(store.entries), email, nickname).value)
      && members.rows == old(members.rows) && members.tokens == old(members.tokens)
      && members.nextId == old(members.nextId) && store.entries == old(store.entries)
    ensures SignUpRejection(old(members.rows), old(store.entries), email, nickname).None? ==>
      var id := old(members.nextId);
      var refresh := jwt.generateRefreshToken(email, id, now);
      && r == Ok(SignedUp(id, email, nickname, jwt.generateAccessToken(email, id, now), refresh))
      && members.rows == old(members.rows) + [NewMember(id, email, encode(password), nickname)]
      && members.tokens == old(members.tokens) + [MemberToken(id, refresh, false)]
      && members.nextId == id + 1
      && store.entries == (old(store.entries) - {FlagKey(email)})[TokenKey(id) := refresh]
  {
    r := SignUp(members, store, jwt, encode, email, password, nickname, now);
    if r.Ok? {
      SaveRefreshToken(store, r.value.memberId, r.value.refreshToken);
    }
  }

  /** With the token saved at signup, the returned refresh token is accepted by a later
      refresh for the new member. */
  lemma SignUpWithSessionRefreshes(rows: seq<Member>, entries: map<string, string>, jwt: JwtUtil,
                                   encode: string -> string, id: nat, email: string, password: string,
                                   nickname: string, now: nat, later: nat)
    requires IssuesRefreshTokens(jwt)
    ensures var refresh := jwt.generateRefreshToken(email, id, now);
      var after := rows + [NewMember(id, email, encode(password), nickname)];
      RefreshOutcome(after, (entries - {FlagKey(email)})[TokenKey(id) := refresh], jwt, refresh, later).Ok?
  {
    var refresh := jwt.generateRefreshToken(email, id, now);
    var after := rows + [NewMember(id, email, encode(password), nickname)];
    assert jwt.validateToken(refresh) && IsRefreshToken(jwt, refresh) && jwt.memberIdOf(refresh) == Some(id);
    SaveThenValidate(entries - {FlagKey(email)}, id, refresh, refresh);
    assert after[|rows|].id == id;
  }

  /** getAccountScopeMessage(accountScope). */
  function ScopeMessage(scope: AccountScope): string {
    match scope
    case Public => "계정이 공개로 설정되었습니다"
    case FollowersOnly => "계정이 팔로워만 보기로 설정되었습니다"
  }

  /** MemberResponseDTO.UpdateAccountScope. */
  datatype ScopeUpdated = ScopeUpdated(memberId: nat, accountScope: AccountScope, message: string)

  /** updateAccountScope(member, request) for a member loaded from the table: the scope it
      already has is SAME_ACCOUNT_SCOPE with nothing changed; otherwise its row gets the new
      scope and the message names it. */
  method UpdateAccountScope(members: MemberTable, m: Member, scope: AccountScope)
    returns (r: Result<ScopeUpdated, Failure>)
    requires members.Valid() && m in members.rows
    modifies members
    ensures members.Valid()
    ensures members.tokens == old(members.tokens) && members.nextId == old(members.nextId)
    ensures m.accountScope == scope ==> r == Err(MemberErr(SameAccountScope)) && members.rows == old(members.rows)
    ensures m.accountScope != scope ==>
      && r == Ok(ScopeUpdated(m.id, scope, ScopeMessage(scope)))
      && members.rows == old(members.rows)[IndexOfId(old(members.rows), m.id).value := m.(accountScope := scope)]
  {
    if m.accountScope == scope {
      return Err(MemberErr(SameAccountScope));
    }
    var updated := m.(accountScope := scope);
    members.Update(updated);
    r := Ok(ScopeUpdated(updated.id, updated.accountScope, ScopeMessage(scope)));
  }

  /** After a scope change the member's row carries the new scope and its other fields, and
      every other member is found as before. */
  lemma ScopeChangeFound(rows: seq<Member>, k: nat, scope: AccountScope, id: int)
    requires IdsAscend(rows) && k < |rows|
    ensures var after := rows[IndexOfId(rows, rows[k].id).value := rows[k].(accountScope := scope)];
      && FindById(after, rows[k].id) == Some(rows[k].(accountScope := scope))
      && (id != rows[k].id ==> FindById(after, id) == FindById(rows, id))
  {
    IndexOfIdUnique(rows, k);
    FindByIdAfterReplace(rows, k, rows[k].(accountScope := scope), id);
  }

  /** sendPasswordResetVerification(request): an unregistered email is NOT_FOUND; otherwise
      the reset code is handed to the email-verification service. */
  function SendPasswordResetVerification(rows: seq<Member>, email: string): (r: Result<string, Failure>)
    ensures r.Ok? <==> ExistsByEmail(rows, email)
    ensures r.Ok? ==> r.value == ResetCodeSentMessage
    ensures r.Err? ==> r.error == MemberErr(MemberNotFound)
  {
    if !ExistsByEmail(rows, email) then Err(MemberErr(MemberNotFound)) else Ok(ResetCodeSentMessage)
  }

  /** verifyPasswordResetCode(request), with the reset-code check's outcome as a parameter:
      an unregistered email is NOT_FOUND before the code is looked at; a failing check passes
      its error through, a false answer is EMAIL_VERIFICATION_FAILED. */
  function VerifyPasswordResetCode(rows: seq<Member>, email: string, verified: Result<bool, Failure>)
    : (r: Result<string, Failure>)
    ensures !ExistsByEmail(rows, email) ==> r == Err(MemberErr(MemberNotFound))
    ensures r.Ok? <==> ExistsByEmail(rows, email) && verified == Ok(true)
    ensures r.Ok? ==> r.value == ResetCodeVerifiedMessage
    ensures ExistsByEmail(rows, email) && verified.Err? ==> r == Err(verified.error)
    ensures ExistsByEmail(rows, email) && verified == Ok(false) ==> r == Err(MemberErr(EmailVerificationFailed))
  {
    if !ExistsByEmail(rows, email) then Err(MemberErr(MemberNotFound))
    else match verified
      case Err(e) => Err(e)
      case Ok(ok) => if !ok then Err(MemberErr(EmailVerificationFailed)) else Ok(ResetCodeVerifiedMessage)
  }

  /** MemberResponseDTO.ChangePassword. */
  datatype PasswordChanged = PasswordChanged(memberId: nat, message: string)

  /** changePassword(member, request) for a loaded member, with the reset-flag check's answer
      as a parameter: no flag is EMAIL_NOT_VERIFIED, then a new password the current hash
      accepts is SAME_PASSWORD, both before any change; otherwise the row gets the encoded new
      password. */
  method ChangePassword(members: MemberTable, m: Member, resetVerified: bool, matches: (string, string) -> bool,
                        encode: string -> string, newPassword: string)
    returns (r: Result<PasswordChanged, Failure>)
    requires members.Valid() && m in members.rows
    modifies members
    ensures members.Valid()
    ensures members.tokens == old(members.tokens) && members.nextId == old(members.nextId)
    ensures !resetVerified ==> r == Err(MemberErr(EmailNotVerified)) && members.rows == old(members.rows)
    ensures resetVerified && matches(newPassword, m.password) ==>
      r == Err(MemberErr(SamePassword)) && members.rows == old(members.rows)
    ensures resetVerified && !matches(newPassword, m.password) ==>
      && r == Ok(PasswordChanged(m.id, PasswordChangedMessage))
      && members.rows == old(members.rows)[IndexOfId(old(members.rows), m.id).value := m.(password := encode(newPassword))]
  {
    if !resetVerified {
      return Err(MemberErr(EmailNotVerified));
    }
    if matches(newPassword, m.password) {
      return Err(MemberErr(SamePassword));
    }
    var updated := m.(password := encode(newPassword));
    members.Update(updated);
    r := Ok(PasswordChanged(updated.id, PasswordChangedMessage));
  }

  /** After a password change a verified member logs in with the new password (given an
      encoder whose output the matcher accepts), and a password the new hash refuses fails
      with INVALID_CREDENTIALS. */
  lemma LoginAfterPasswordChange(rows: seq<Member>, k: nat, matches: (string, string) -> bool,
                                 encode: string -> string, jwt: JwtUtil, newPassword: string, other: string, now: nat)
    requires UniqueEmails(rows) && k < |rows| && rows[k].isEmailVerified
    requires matches(newPassword, encode(newPassword)) && !matches(other, encode(newPassword))
    ensures var after := rows[k := rows[k].(password := encode(newPassword))];
      && LoginOutcome(after, matches, jwt, rows[k].email, newPassword, now).Ok?
      && LoginOutcome(after, matches, jwt, rows[k].email, other, now) == Err(AuthErr(InvalidCredentials))
  {
    var m := rows[k].(password := encode(newPassword));
    var after := rows[k := m];
    assert UniqueEmails(after) by {
      forall i, j | 0 <= i < j < |after| ensures after[i].email != after[j].email {
        assert after[i].email == rows[i].email && after[j].email == rows[j].email;
      }
    }
    LoginSucceedsIff(after, matches, jwt, m.email, newPassword, now);
    assert after[k] == m;
    WithEmailCount(after, m.email);
    var found := FindByEmail(after, m.email);
    var f := found.value.value;
    var i :| 0 <= i < |after| && after[i] == f;
    assert i == k;
  }

  /** The part of an S3 object URL that precedes the key. */
  const S3Marker: string := ".amazonaws.com/"

  /** extractS3KeyFromUrl(s3Url): null or blank is null; a URL containing ".amazonaws.com/"
      gives the text after its first occurrence; anything else is null. */
  function ExtractS3KeyFromUrl(url: Option<string>): (r: Option<string>)
    ensures url.None? || Trim(url.value) == "" ==> r.None?
    ensures url.Some? && Trim(url.value) != "" ==> (r.Some? <==> Contains(url.value, S3Marker))
    ensures r.Some? ==>
      var j := |url.value| - |r.value| - |S3Marker|;
      && OccursAt(url.value, S3Marker, j) && url.value[j + |S3Marker|..] == r.value
      && forall i | 0 <= i < j :: !OccursAt(url.value, S3Marker, i)
  {
    if url.None? || Trim(url.value) == "" then None
    else if Contains(url.value, S3Marker) then
      Some(url.value[IndexOf(url.value, S3Marker) + |S3Marker|..])
    else None
  }

  /** The URL amazonS3Client.getUrl gives for a key in a virtual-hosted bucket, for a key
      that URL encoding leaves as it is (getUrl percent-encodes other characters, which
      this model does not do). */
  function S3Url(host: string, key: string): string {
    "https://" + host + S3Marker + key
  }

  /** The key is recovered from the URL of the object it names, as long as the host has no
      '/'; since S3Url does not percent-encode, this covers the keys encoding leaves
      unchanged, among them every key ProfileImageKey makes from a plain file name. */
  lemma ExtractS3KeyOfUrl(host: string, key: string)
    requires forall i | 0 <= i < |host| :: host[i] != '/'
    ensures ExtractS3KeyFromUrl(Some(S3Url(host, key))) == Some(key)
  {
    var u := S3Url(host, key);
    var p := |"https://" + host|;
    assert OccursAt(u, S3Marker, p) by {
      assert u[p..p + |S3Marker|] == S3Marker;
    }
    forall j | 0 <= j < p ensures !OccursAt(u, S3Marker, j) {
      assert u[j + 14] != '/' by {
        if j + 14 < p {
          assert u[j + 14] == host[j + 6];
        } else {
          assert u[j + 14] == S3Marker[j + 14 - p];
        }
      }
      assert u[j..j + 15][14] == u[j + 14];
    }
    var i := IndexOf(u, S3Marker);
    assert i == p;
    assert !IsTrimmable(u[0]);
    TrimEmptyIff(u);
    assert u[p + |S3Marker|..] == key;
  }

  /** A profile image uploaded under its generated key is found again as that key when the
      member replaces the image, so the old object is the one deleted. */
  lemma ReplacedImageKeyFound(host: string, memberId: nat, millis: nat, uuid: string, filename: string)
    requires |uuid| >= 8
    requires forall i | 0 <= i < |host| :: host[i] != '/'
    ensures ExtractS3KeyFromUrl(Some(S3Url(host, ProfileImageKey(memberId, millis, uuid, filename))))
            == Some(ProfileImageKey(memberId, millis, uuid, filename))
  {
    ExtractS3KeyOfUrl(host, ProfileImageKey(memberId, millis, uuid, filename));
  }

  /** MemberResponseDTO.UploadProfileImage. */
  datatype ProfileImageUpdated = ProfileImageUpdated(memberId: nat, profileImageUrl: string, message: string)

  /** uploadProfileImage(member, imageFile) for a loaded member, with the clock's
      milliseconds, the UUID's text and S3's upload as parameters (upload answers the URL
      of the stored object, or None when it throws). A rejected file keeps its own error and
      nothing is touched. Otherwise the key of the current image, if one can be extracted,
      is deleted (a failed delete is swallowed, so its outcome is not a parameter), the file
      is uploaded under a fresh profile key, and the row gets the new URL; an upload failure
      is INVALID_IMAGE_FILE with the row unchanged. */
  method UploadProfileImage(members: MemberTable, m: Member, file: Option<ImageFile>, millis: nat, uuid: string,
                            upload: string -> Option<string>)
    returns (r: Result<ProfileImageUpdated, Failure>, deleted: Option<string>)
    requires members.Valid() && m in members.rows && |uuid| >= 8
    modifies members
    ensures members.Valid()
    ensures members.tokens == old(members.tokens) && members.nextId == old(members.nextId)
    ensures ValidateImageFile(file).Err? ==>
      r == Err(ValidateImageFile(file).error) && deleted.None? && members.rows == old(members.rows)
    ensures ValidateImageFile(file).Ok? ==>
      var key := ProfileImageKey(m.id, millis, uuid, file.value.originalFilename.value);
      && deleted == ExtractS3KeyFromUrl(m.profileImageUrl)
      && (upload(key).None? ==> r == Err(MemberErr(InvalidImageFile)) && members.rows == old(members.rows))
      && (upload(key).Some? ==>
            && r == Ok(ProfileImageUpdated(m.id, upload(key).value, ProfileImageMessage))
            && members.rows == old(members.rows)[IndexOfId(old(members.rows), m.id).value
                                                  := m.(profileImageUrl := Some(upload(key).value))])
  {
    var valid := ValidateImageFile(file);
    if valid.Err? {
      return Err(valid.error), None;
    }
    deleted := None;
    if m.profileImageUrl.Some? && Trim(m.profileImageUrl.value) != "" {
      deleted := ExtractS3KeyFromUrl(m.profileImageUrl);
    }
    var key := ProfileImageKey(m.id, millis, uuid, file.value.originalFilename.value);
    var url := upload(key);
    if url.None? {
      return Err(MemberErr(InvalidImageFile)), deleted;
    }
    var updated := m.(profileImageUrl := Some(url.value));
    members.Update(updated);
    r := Ok(ProfileImageUpdated(updated.id, url.value, ProfileImageMessage));
  }
}
