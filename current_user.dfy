/** CurrentUserArgumentResolver: which controller parameters it fills, and how the
    principal the JWT filter left in the security context becomes a loaded member. */
module CurrentUser {
  import opened Wrappers
  import opened Errors
  import opened Text
  import opened Members

  /** Long.MAX_VALUE: the largest id Long.valueOf accepts. */
  const LongMax: int := 0x7FFF_FFFF_FFFF_FFFF

  /** The declared type of a controller parameter, as far as isAssignableFrom sees it. */
  datatype ParameterType = MemberClass | MemberSubclass | OtherClass

  /** Member.class.isAssignableFrom(type): Member itself or a subclass of it. */
  predicate AssignableToMember(t: ParameterType) {
    t == MemberClass || t == MemberSubclass
  }

  /** supportsParameter(parameter): it must carry @CurrentUser and accept a Member. */
  function SupportsParameter(hasCurrentUser: bool, t: ParameterType): (b: bool)
    ensures b ==> hasCurrentUser
    ensures b ==> t != OtherClass
  {
    hasCurrentUser && AssignableToMember(t)
  }

  /** The resolver takes exactly the annotated parameters of type Member or a subclass. */
  lemma SupportsParameterIff(hasCurrentUser: bool, t: ParameterType)
    ensures SupportsParameter(hasCurrentUser, t) <==> hasCurrentUser && (t == MemberClass || t == MemberSubclass)
    ensures !SupportsParameter(false, t) && !SupportsParameter(hasCurrentUser, OtherClass)
  {
  }

  /** The principal object of an Authentication: a Long, a String, or anything else. */
  datatype Principal = LongPrincipal(id: int) | StringPrincipal(text: string) | OtherPrincipal

  /** An Authentication; a null principal is None. */
  datatype Authentication = Authentication(principal: Option<Principal>)

  /** What isAllDigits answers: a non-blank string of digits only. */
  predicate AllDigits(s: string) {
    !IsBlank(s) && forall i | 0 <= i < |s| :: IsDigit(s[i])
  }

  /** Digits are not whitespace, so a string of digits is non-blank exactly when it is
      non-empty. */
  lemma AllDigitsIff(s: string)
    ensures AllDigits(s) <==> |s| > 0 && forall i | 0 <= i < |s| :: IsDigit(s[i])
  {
    if |s| > 0 && forall i | 0 <= i < |s| :: IsDigit(s[i]) {
      assert !IsWhitespace(s[0]);
    }
  }

  /** isAllDigits(s): null or blank is false; otherwise the characters are scanned and the
      first non-digit ends the scan with false. */
  method IsAllDigits(s: Option<string>) returns (b: bool)
    ensures b <==> s.Some? && AllDigits(s.value)
    ensures b <==> s.Some? && |s.value| > 0 && forall i | 0 <= i < |s.value| :: IsDigit(s.value[i])
  {
    if s.None? {
      return false;
    }
    AllDigitsIff(s.value);
    if IsBlank(s.value) {
      return false;
    }
    var i := 0;
    while i < |s.value|
      invariant 0 <= i <= |s.value|
      invariant forall k | 0 <= k < i :: IsDigit(s.value[k])
    {
      if !IsDigit(s.value[i]) {
        return false;
      }
      i := i + 1;
    }
    b := true;
  }

  /** The member id a principal stands for: a Long is used as it is; a String of digits is
      parsed, and one above Long.MAX_VALUE makes Long.valueOf throw; anything else is
      JWT_INVALID_TOKEN. */
  function PrincipalMemberId(p: Principal): (r: Result<int, Failure>)
    ensures p.LongPrincipal? ==> r == Ok(p.id)
    ensures p.OtherPrincipal? ==> r == Err(GeneralErr(JwtInvalidToken))
    ensures p.StringPrincipal? && !AllDigits(p.text) ==> r == Err(GeneralErr(JwtInvalidToken))
    ensures p.StringPrincipal? && AllDigits(p.text) ==>
      (r.Ok? <==> DigitsValue(p.text) <= LongMax)
      && (r.Ok? ==> r.value == DigitsValue(p.text))
      && (r.Err? ==> r.error == RuntimeErr(NumberFormat))
  {
    match p
    case LongPrincipal(id) => Ok(id)
    case StringPrincipal(s) =>
      if !AllDigits(s) then Err(GeneralErr(JwtInvalidToken))
      else if DigitsValue(s) > LongMax then Err(RuntimeErr(NumberFormat))
      else Ok(DigitsValue(s))
    case OtherPrincipal => Err(GeneralErr(JwtInvalidToken))
  }

  /** An id written as a decimal String principal resolves to the same id as the Long
      principal, for every id a Long can hold. */
  lemma StringPrincipalOfId(n: nat)
    requires n <= LongMax
    ensures PrincipalMemberId(StringPrincipal(NatToString(n))) == PrincipalMemberId(LongPrincipal(n)) == Ok(n)
  {
    AllDigitsIff(NatToString(n));
    DigitsValueOfNatToString(n);
  }

  /** resolveArgument(...) for the authentication in the security context: none, or a null
      principal, is JWT_INVALID_TOKEN; an id that cannot be decoded keeps the decoding's
      error; an id no member has is NOT_FOUND; otherwise the member with that id. */
  function ResolveArgument(rows: seq<Member>, auth: Option<Authentication>): (r: Result<Member, Failure>)
    ensures auth.None? || auth.value.principal.None? ==> r == Err(GeneralErr(JwtInvalidToken))
    ensures r.Ok? ==> r.value in rows && auth.Some? && auth.value.principal.Some?
                      && PrincipalMemberId(auth.value.principal.value) == Ok(r.value.id)
    ensures auth.Some? && auth.value.principal.Some? && PrincipalMemberId(auth.value.principal.value).Ok? ==>
      (r.Ok? <==> exists k | 0 <= k < |rows| :: rows[k].id == PrincipalMemberId(auth.value.principal.value).value)
    ensures r.Err? && auth.Some? && auth.value.principal.Some? && PrincipalMemberId(auth.value.principal.value).Ok? ==>
      r.error == MemberErr(MemberNotFound)
    ensures auth.Some? && auth.value.principal.Some? && PrincipalMemberId(auth.value.principal.value).Err? ==>
      r == Err(PrincipalMemberId(auth.value.principal.value).error)
  {
    if auth.None? || auth.value.principal.None? then Err(GeneralErr(JwtInvalidToken))
    else match PrincipalMemberId(auth.value.principal.value)
      case Err(e) => Err(e)
      case Ok(id) =>
        match FindById(rows, id)
        case Some(m) => Ok(m)
        case None => Err(MemberErr(MemberNotFound))
  }

  /** With ascending ids, a Long principal holding a member's id resolves to that member. */
  lemma ResolvesOwnMember(rows: seq<Member>, k: nat)
    requires IdsAscend(rows) && k < |rows|
    ensures ResolveArgument(rows, Some(Authentication(Some(LongPrincipal(rows[k].id))))) == Ok(rows[k])
  {
    IndexOfIdUnique(rows, k);
  }
}
