/** The guards of MemberController.checkNickname, run before the availability query: a
    nickname is required, must be 2 to 20 characters long, and may only use Hangul
    syllables, ASCII letters, digits, '_' and '-'. */
module Nickname {
  import opened Wrappers
  import opened Text
  import opened Members

  const MinLength: nat := 2
  const MaxLength: nat := 20

  /** One character of the pattern [가-힣a-zA-Z0-9_-]. */
  predicate NicknameChar(c: char) {
    || (0xAC00 <= c as int <= 0xD7A3)
    || ('a' <= c <= 'z') || ('A' <= c <= 'Z') || ('0' <= c <= '9')
    || c == '_' || c == '-'
  }

  /** The IllegalArgumentException each guard throws, in guard order. */
  datatype Rejection = NicknameRequired | NicknameLength | NicknameCharacters

  /** The exception message of each rejection. */
  function RejectionMessage(r: Rejection): string {
    match r
    case NicknameRequired => "닉네임은 필수입니다"
    case NicknameLength => "닉네임은 2-20자 이내여야 합니다"
    case NicknameCharacters => "닉네임은 한글, 영문, 숫자, '_', '-'만 사용 가능합니다"
  }

  /** The guards in order: null or blank after trimming, then a length outside 2..20 (of the
      untrimmed text, counted in UTF-16 code units as String.length does), then a character
      outside the pattern (matched per code point). None when all pass. */
  function NicknameGuard(nickname: Option<string>): (r: Option<Rejection>)
    ensures nickname.None? ==> r == Some(NicknameRequired)
    ensures nickname.Some? && Trim(nickname.value) == "" ==> r == Some(NicknameRequired)
    ensures nickname.Some? && Trim(nickname.value) != "" && !(MinLength <= Utf16Length(nickname.value) <= MaxLength) ==>
      r == Some(NicknameLength)
    ensures (&& nickname.Some? && Trim(nickname.value) != ""
             && MinLength <= Utf16Length(nickname.value) <= MaxLength
             && exists i | 0 <= i < |nickname.value| :: !NicknameChar(nickname.value[i]))
      ==> r == Some(NicknameCharacters)
    ensures r == Some(NicknameCharacters) ==>
      nickname.Some? && MinLength <= Utf16Length(nickname.value) <= MaxLength
      && exists i | 0 <= i < |nickname.value| :: !NicknameChar(nickname.value[i])
  {
    if nickname.None? || Trim(nickname.value) == "" then Some(NicknameRequired)
    else if Utf16Length(nickname.value) < MinLength || Utf16Length(nickname.value) > MaxLength then Some(NicknameLength)
    else if !(forall i | 0 <= i < |nickname.value| :: NicknameChar(nickname.value[i])) then Some(NicknameCharacters)
    else None
  }

  /** A nickname passes exactly when it is 2 to 20 pattern characters: the pattern admits no
      character trim removes, so the blank check never rejects a nickname the later guards
      would accept. */
  lemma NicknameGuardIff(nickname: Option<string>)
    ensures NicknameGuard(nickname).None? <==>
      nickname.Some? && MinLength <= |nickname.value| <= MaxLength
      && forall i | 0 <= i < |nickname.value| :: NicknameChar(nickname.value[i])
  {
    if nickname.Some? && MinLength <= |nickname.value| <= MaxLength
       && forall i | 0 <= i < |nickname.value| :: NicknameChar(nickname.value[i]) {
      TrimEmptyIff(nickname.value);
      assert !IsTrimmable(nickname.value[0]);
    }
  }

  /** MemberResponseDTO.CheckNickname. */
  datatype Availability = Availability(available: bool, message: string)

  /** checkNickname(nickname): a rejected nickname never reaches the query; an accepted one
      is available exactly when no member has it. */
  function CheckNickname(rows: seq<Member>, nickname: Option<string>): (r: Result<Availability, Rejection>)
    ensures r.Err? <==> NicknameGuard(nickname).Some?
    ensures r.Err? ==> r.error == NicknameGuard(nickname).value
    ensures r.Ok? ==> (r.value.available <==> !ExistsByNickname(rows, nickname.value))
    ensures r.Ok? ==> r.value.message == (if r.value.available then "사용 가능한 닉네임입니다" else "이미 사용중인 닉네임입니다")
  {
    match NicknameGuard(nickname)
    case Some(rejection) => Err(rejection)
    case None =>
      var available := !ExistsByNickname(rows, nickname.value);
      Ok(Availability(available, if available then "사용 가능한 닉네임입니다" else "이미 사용중인 닉네임입니다"))
  }
}
