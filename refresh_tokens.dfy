/** RefreshTokenService: at most one refresh token per member, kept in the same key-value
    store as the email codes under "refresh_token:" followed by the member id. */
module RefreshTokens {
  import opened Wrappers
  import opened Errors
  import opened Text
  import opened KeyValue
  import EmailVerification

  const Prefix: string := "refresh_token:"

  /** The key of member m's refresh token: the prefix and the decimal id. */
  function TokenKey(memberId: nat): string {
    Prefix + NatToString(memberId)
  }

  /** Different members never share a token key, and no token key is an email code key or
      flag key, so the two services never overwrite each other's entries. */
  lemma TokenKeysDistinct(a: nat, b: nat, email: string)
    ensures TokenKey(a) == TokenKey(b) <==> a == b
    ensures TokenKey(a) != EmailVerification.CodeKey(email)
    ensures TokenKey(a) != EmailVerification.FlagKey(email)
  {
    if TokenKey(a) == TokenKey(b) {
      assert NatToString(a) == TokenKey(a)[|Prefix|..];
      assert NatToString(b) == TokenKey(b)[|Prefix|..];
      DigitsValueOfNatToString(a);
      DigitsValueOfNatToString(b);
    }
    assert TokenKey(a)[0] == 'r';
    assert EmailVerification.CodeKey(email)[0] == 'e';
    assert EmailVerification.FlagKey(email)[0] == 'e';
  }

  /** getRefreshToken(memberId): the stored token, or JWT_INVALID_TOKEN when there is none. */
  function GetRefreshToken(entries: map<string, string>, memberId: nat): (r: Result<string, Failure>)
    ensures r.Ok? <==> TokenKey(memberId) in entries
    ensures r.Ok? ==> r.value == entries[TokenKey(memberId)]
    ensures r.Err? ==> r.error == GeneralErr(JwtInvalidToken)
  {
    if TokenKey(memberId) in entries then Ok(entries[TokenKey(memberId)]) else Err(GeneralErr(JwtInvalidToken))
  }

  /** validateRefreshToken(memberId, token): the missing-token exception of the lookup is
      caught, so the answer is true exactly when the stored token equals the given one. */
  function ValidateRefreshToken(entries: map<string, string>, memberId: nat, token: string): (b: bool)
    ensures b <==> TokenKey(memberId) in entries && entries[TokenKey(memberId)] == token
  {
    match GetRefreshToken(entries, memberId)
    case Ok(saved) => saved == token
    case Err(_) => false
  }

  /** existsRefreshToken(memberId): whether getRefreshToken would find a token. */
  function ExistsRefreshToken(entries: map<string, string>, memberId: nat): (b: bool)
    ensures b <==> GetRefreshToken(entries, memberId).Ok?
  {
    TokenKey(memberId) in entries
  }

  /** A member has a stored token exactly when some token validates for it. */
  lemma ExistsIffSomeTokenValidates(entries: map<string, string>, memberId: nat)
    ensures ExistsRefreshToken(entries, memberId) <==> exists t :: ValidateRefreshToken(entries, memberId, t)
  {
    if ExistsRefreshToken(entries, memberId) {
      assert ValidateRefreshToken(entries, memberId, entries[TokenKey(memberId)]);
    }
  }

  /** saveRefreshToken(memberId, token, expiration): the member's token is replaced; the
      expiration only sets the entry's time to live. */
  method SaveRefreshToken(store: Store, memberId: nat, token: string)
    modifies store
    ensures store.entries == old(store.entries)[TokenKey(memberId) := token]
  {
    store.Set(TokenKey(memberId), token);
  }

  /** deleteRefreshToken(memberId): removes the member's token; a missing one is no error. */
  method DeleteRefreshToken(store: Store, memberId: nat)
    modifies store
    ensures store.entries == old(store.entries) - {TokenKey(memberId)}
  {
    var _ := store.Delete(TokenKey(memberId));
  }

  /** deleteAllRefreshTokens(memberId): with one token per member, the same as delete. */
  method DeleteAllRefreshTokens(store: Store, memberId: nat)
    modifies store
    ensures store.entries == old(store.entries) - {TokenKey(memberId)}
  {
    DeleteRefreshToken(store, memberId);
  }

  /** After a save, only the saved token validates for that member; after a delete, none
      does, and the lookup fails with JWT_INVALID_TOKEN. */
  lemma SaveThenValidate(entries: map<string, string>, memberId: nat, token: string, other: string)
    ensures GetRefreshToken(entries[TokenKey(memberId) := token], memberId) == Ok(token)
    ensures ValidateRefreshToken(entries[TokenKey(memberId) := token], memberId, other) <==> other == token
    ensures GetRefreshToken(entries - {TokenKey(memberId)}, memberId) == Err(GeneralErr(JwtInvalidToken))
    ensures !ValidateRefreshToken(entries - {TokenKey(memberId)}, memberId, other)
    ensures !ExistsRefreshToken(entries - {TokenKey(memberId)}, memberId)
  {
  }

  /** Saving or deleting one member's token leaves every other member's token as it was. */
  lemma OtherMembersUntouched(entries: map<string, string>, memberId: nat, other: nat, token: string)
    requires memberId != other
    ensures GetRefreshToken(entries[TokenKey(memberId) := token], other) == GetRefreshToken(entries, other)
    ensures GetRefreshToken(entries - {TokenKey(memberId)}, other) == GetRefreshToken(entries, other)
  {
    TokenKeysDistinct(memberId, other, "");
  }
}
