/** EmailVerificationService: a six-digit code per email kept under a code key, and a
    "verified" flag kept under a flag key once the right code is presented. */
module EmailVerification {
  import opened Wrappers
  import opened Errors
  import opened Text
  import opened KeyValue

  const Prefix: string := "email_verification:"
  const CodeLength: nat := 6

  /** The key the pending code of email is stored under. */
  function CodeKey(email: string): string {
    Prefix + email
  }

  /** The key of the flag that records a completed verification of email. */
  function FlagKey(email: string): string {
    Prefix + "verified:" + email
  }

  /** A code key and a flag key coincide exactly when the code's email is "verified:"
      followed by the flag's email. */
  lemma CodeKeyMeetsFlagKey(a: string, b: string)
    ensures CodeKey(a) == FlagKey(b) <==> a == "verified:" + b
  {
    if CodeKey(a) == FlagKey(b) {
      assert a == CodeKey(a)[|Prefix|..];
      assert FlagKey(b)[|Prefix|..] == "verified:" + b;
    }
    if a == "verified:" + b {
      assert Prefix + ("verified:" + b) == Prefix + "verified:" + b;
    }
  }

  /** Different emails have different code keys and different flag keys, and a syntactically
      valid address (its local part has no ':') never has a code key equal to any flag key;
      so the flag of one email and the code of another never share a slot. */
  lemma EmailKeysDistinct(a: string, b: string)
    ensures CodeKey(a) == CodeKey(b) ==> a == b
    ensures FlagKey(a) == FlagKey(b) ==> a == b
    ensures (forall i | 0 <= i < |a| :: a[i] != ':') ==> CodeKey(a) != FlagKey(b)
  {
    if CodeKey(a) == CodeKey(b) {
      assert a == CodeKey(a)[|Prefix|..] && b == CodeKey(b)[|Prefix|..];
    }
    var p := Prefix + "verified:";
    if FlagKey(a) == FlagKey(b) {
      assert a == FlagKey(a)[|p|..] && b == FlagKey(b)[|p|..];
    }
    CodeKeyMeetsFlagKey(a, b);
    if CodeKey(a) == FlagKey(b) {
      assert a[8] == ':';
    }
  }

  /** A code as generateVerificationCode builds it: six decimal digits. */
  predicate IsCode(code: string) {
    |code| == CodeLength && forall i | 0 <= i < |code| :: IsDigit(code[i])
  }

  /** generateVerificationCode: one character per draw of random.nextInt(10), appended in
      draw order; the draws of the random source are the parameter. */
  method GenerateVerificationCode(draws: seq<nat>) returns (code: string)
    requires |draws| == CodeLength && forall i | 0 <= i < |draws| :: draws[i] < 10
    ensures IsCode(code)
    ensures forall i | 0 <= i < |code| :: DigitValue(code[i]) == draws[i]
  {
    code := [];
    var i := 0;
    while i < CodeLength
      invariant 0 <= i <= CodeLength && |code| == i
      invariant forall j | 0 <= j < i :: IsDigit(code[j]) && DigitValue(code[j]) == draws[j]
    {
      code := code + [DigitChar(draws[i])];
      i := i + 1;
    }
  }

  /** generateAndSaveVerificationCode(email): the new code replaces any pending one and is
      returned. Sending the mail is I/O; its failure is caught and logged, so it changes
      neither the result nor the store. */
  method GenerateAndSaveVerificationCode(store: Store, email: string, draws: seq<nat>) returns (code: string)
    requires |draws| == CodeLength && forall i | 0 <= i < |draws| :: draws[i] < 10
    modifies store
    ensures IsCode(code) && forall i | 0 <= i < |code| :: DigitValue(code[i]) == draws[i]
    ensures store.entries == old(store.entries)[CodeKey(email) := code]
  {
    code := GenerateVerificationCode(draws);
    store.Set(CodeKey(email), code);
  }

  /** What verifyCode(email, inputCode) answers for the store contents: no pending code is
      EMAIL_VERIFICATION_CODE_EXPIRED, a different code is EMAIL_VERIFICATION_CODE_INVALID,
      and otherwise true. */
  function VerifyOutcome(entries: map<string, string>, email: string, input: string): (r: Result<bool, Failure>)
    ensures r.Ok? ==> r.value
    ensures r.Ok? <==> CodeKey(email) in entries && entries[CodeKey(email)] == input
    ensures CodeKey(email) !in entries ==> r == Err(MemberErr(EmailVerificationCodeExpired))
    ensures CodeKey(email) in entries && entries[CodeKey(email)] != input ==>
      r == Err(MemberErr(EmailVerificationCodeInvalid))
  {
    if CodeKey(email) !in entries then Err(MemberErr(EmailVerificationCodeExpired))
    else if entries[CodeKey(email)] != input then Err(MemberErr(EmailVerificationCodeInvalid))
    else Ok(true)
  }

  /** The store after a successful verification: the code consumed and the flag set. */
  function Verified(entries: map<string, string>, email: string): map<string, string> {
    (entries - {CodeKey(email)})[FlagKey(email) := "true"]
  }

  /** verifyCode(email, inputCode): a failure leaves the store as it was, so a wrong guess
      does not consume the code; success deletes the code and sets the flag. */
  method VerifyCode(store: Store, email: string, input: string) returns (r: Result<bool, Failure>)
    modifies store
    ensures r == VerifyOutcome(old(store.entries), email, input)
    ensures r.Err? ==> store.entries == old(store.entries)
    ensures r.Ok? ==> store.entries == Verified(old(store.entries), email)
  {
    var saved := store.Get(CodeKey(email));
    if saved.None? {
      return Err(MemberErr(EmailVerificationCodeExpired));
    }
    if saved.value != input {
      return Err(MemberErr(EmailVerificationCodeInvalid));
    }
    var _ := store.Delete(CodeKey(email));
    store.Set(FlagKey(email), "true");
    r := Ok(true);
  }

  /** isEmailVerified(email): "true".equals of the flag's value, where a missing flag reads
      as null. */
  predicate IsEmailVerified(entries: map<string, string>, email: string): (r: bool)
    ensures r <==> FlagKey(email) in entries && entries[FlagKey(email)] == "true"
  {
    var verified := if FlagKey(email) in entries then Some(entries[FlagKey(email)]) else None;
    verified == Some("true")
  }

  /** The flag alone decides: writing v to the flag verifies the email exactly when v is
      "true", removing the flag unverifies it, and storing a code for an address whose code
      key is not this flag key leaves the answer as it was. */
  lemma IsEmailVerifiedOfFlag(entries: map<string, string>, email: string, v: string, other: string, code: string)
    ensures IsEmailVerified(entries[FlagKey(email) := v], email) <==> v == "true"
    ensures !IsEmailVerified(entries - {FlagKey(email)}, email)
    ensures other != "verified:" + email ==>
      IsEmailVerified(entries[CodeKey(other) := code], email) == IsEmailVerified(entries, email)
  {
    CodeKeyMeetsFlagKey(other, email);
  }

  /** removeVerifiedFlag(email): deletes the flag key and nothing else. */
  method RemoveVerifiedFlag(store: Store, email: string)
    modifies store
    ensures store.entries == old(store.entries) - {FlagKey(email)}
  {
    var _ := store.Delete(FlagKey(email));
  }

  /** The life of one code: the code just stored verifies, verification marks the email as
      verified, the code is then gone so a second attempt reports it expired, and removing the
      flag makes the email unverified again. */
  lemma {:induction false} CodeVerifiesOnce(entries: map<string, string>, email: string, code: string)
    ensures VerifyOutcome(entries[CodeKey(email) := code], email, code) == Ok(true)
    ensures IsEmailVerified(Verified(entries[CodeKey(email) := code], email), email)
    ensures VerifyOutcome(Verified(entries[CodeKey(email) := code], email), email, code)
            == Err(MemberErr(EmailVerificationCodeExpired))
    ensures !IsEmailVerified(Verified(entries[CodeKey(email) := code], email) - {FlagKey(email)}, email)
  {
    EmailKeysDistinct(email, email);
    CodeKeyMeetsFlagKey(email, email);
    assert email != "verified:" + email by {
      assert |"verified:" + email| != |email|;
    }
  }

  /** Verifying, or removing the flag of, one valid address changes neither the pending code
      nor the verified state of any other address. */
  lemma OtherEmailsUntouched(entries: map<string, string>, email: string, other: string, input: string)
    requires email != other
    requires forall i | 0 <= i < |email| :: email[i] != ':'
    requires forall i | 0 <= i < |other| :: other[i] != ':'
    ensures VerifyOutcome(Verified(entries, email), other, input) == VerifyOutcome(entries, other, input)
    ensures IsEmailVerified(Verified(entries, email), other) == IsEmailVerified(entries, other)
    ensures VerifyOutcome(entries - {FlagKey(email)}, other, input) == VerifyOutcome(entries, other, input)
    ensures IsEmailVerified(entries - {FlagKey(email)}, other) == IsEmailVerified(entries, other)
  {
    EmailKeysDistinct(email, other);
    EmailKeysDistinct(other, email);
  }
}
