# Clody server core, modelled in Dafny

Clody is a Spring backend for sharing an "outfit of the day" (OOTD). Members sign up with
a verified email address and log in for a JWT pair, and the refresh token is kept in Redis
and rotated on every refresh. Members post OOTDs with a weather snapshot, an optional image
and up to six hashtags from a fixed category catalogue. They browse a cursor-paginated
community feed, optionally filtered by hashtags, and list their own OOTDs of a month or
OOTDs of similar weather. They like OOTDs and write threaded comments. The comment thread
is stored twice: as parent references in `comment`, and as a closure table
`comment_closure(ancestor_id, descendant_id, depth)` that holds every ancestor pair.

This project models the services that hold this logic:

- **State the services change in place.**
  - The tables and the Redis store become classes whose methods carry `modifies` clauses.
  - A Redis store is `KeyValue.Store`.
  - The tables are `Members.MemberTable`, `Likes.LikeTable`, `CommentClosure.CommentTable`,
    `CommentClosure.ClosureTable` and `OotdCommand.OotdTables`.
  - Every service operation that writes is a method, proved against a function of the old
    state.
- **Queries** become functions over the table contents (sequences in table order), with
  lemmas about them.
- **Collaborators are parameters.** These include JWT signing and parsing (`Auth.JwtUtil`),
  password hashing, S3, the clock, `UUID` and `SecureRandom`. The model states what their
  results are used for, not how they are computed.

Modules, one per component:

| module | component |
|---|---|
| `Wrappers`, `Errors`, `Text` | Option/Result, the error codes, and the Java string helpers used by the services |
| `KeyValue` | the Redis `opsForValue` get/set, `delete` and `hasKey` |
| `RefreshTokens`, `EmailVerification` | `RefreshTokenService` and `EmailVerificationService` over that store |
| `Members`, `Auth`, `MemberCommand`, `Nickname` | the member table, `AuthService`, `MemberCommandService`, the nickname check |
| `ImageValidation`, `CurrentUser`, `JwtFilter` | `ImageValidationUtil`, `CurrentUserArgumentResolver`, `JwtAuthenticationFilter` |
| `CommentClosure`, `CommentCommand`, `CommentQuery` | the two comment repositories, `add`/`deleteCascade`, and the tree built by `getAllComments` |
| `Likes` | the like command and query services over `ootd_like` |
| `Hashtags`, `OotdStore`, `OotdCommand`, `OotdQuery` | hashtag parsing and lookup, the OOTD queries, `createOotd`, and the feed, monthly and similar-weather queries |

Main results:

- **Closure table.** `add` and `deleteCascade` keep the closure table exactly equal to the
  reflexive-transitive ancestor relation of the parent references
  (`CommentCommand.AddPreservesConsistent`, `CommentCommand.DeletePreservesConsistent`).
- **Comment tree.** The tree `getAllComments` returns lists every comment of the OOTD
  exactly once (`CommentQuery.ResponseListsEachCommentOnce`).
- **Keyset pagination.** Pages neither lose nor repeat rows (`OotdStore.PagesContinue`,
  `OotdQuery.CommunityFeedContinues`).
- **Refresh tokens.** Login, refresh and logout issue, rotate and revoke the refresh token
  as intended (`Auth.LoginThenRefresh`, `Auth.RefreshRotates`, `Auth.LogoutRevokes`).
- **Likes.** Like and unlike move the count by one exactly when the state changes
  (`Likes.LikeCountAfterLike`, `Likes.LikeCountAfterUnlike`); repeating either leaves the
  table and the response as they were, and each undoes the other (`Likes.LikeUnlikeLaws`).

## Model

| member | source | states |
|---|---|---|
| KeyValue.Store.Get | src/main/java/com/clody/global/auth/RefreshTokenService.java:41 | a value exactly when the key is present, and then the value stored under it |
| KeyValue.Store.Set | src/main/java/com/clody/global/auth/RefreshTokenService.java:34 | the key now maps to the value, and every other key is as it was |
| KeyValue.Store.Delete | src/main/java/com/clody/global/auth/RefreshTokenService.java:68 | the key is removed and nothing else changes; the result says whether it was present |
| KeyValue.Store.HasKey | src/main/java/com/clody/global/auth/RefreshTokenService.java:80 | true exactly when the key is present |
| RefreshTokens.TokenKeysDistinct | src/main/java/com/clody/global/auth/RefreshTokenService.java:22-25 | different members never share a `refresh_token:` key, and no token key equals an email code key or flag key, so the two Redis services never overwrite each other |
| RefreshTokens.GetRefreshToken | src/main/java/com/clody/global/auth/RefreshTokenService.java:39-49 | the stored token of the member, or JWT_INVALID_TOKEN when none is stored |
| RefreshTokens.ValidateRefreshToken | src/main/java/com/clody/global/auth/RefreshTokenService.java:51-64 | true exactly when a token is stored for the member and equals the given one (the lookup failure is caught and answered false) |
| RefreshTokens.ExistsRefreshToken | src/main/java/com/clody/global/auth/RefreshTokenService.java:78-81 | true exactly when getRefreshToken would find a token |
| RefreshTokens.ExistsIffSomeTokenValidates | src/main/java/com/clody/global/auth/RefreshTokenService.java:51-64 | a member has a stored token exactly when some token validates for it |
| RefreshTokens.SaveRefreshToken | src/main/java/com/clody/global/auth/RefreshTokenService.java:24-37 | the member's key maps to the new token and nothing else changes |
| RefreshTokens.DeleteRefreshToken | src/main/java/com/clody/global/auth/RefreshTokenService.java:66-71 | the member's key is removed, present or not, and nothing else changes |
| RefreshTokens.DeleteAllRefreshTokens | src/main/java/com/clody/global/auth/RefreshTokenService.java:73-76 | the same effect as deleteRefreshToken |
| RefreshTokens.SaveThenValidate | src/main/java/com/clody/global/auth/RefreshTokenService.java:24-64 | after a save only the saved token validates for that member; after a delete none does and the lookup fails |
| RefreshTokens.OtherMembersUntouched | src/main/java/com/clody/global/auth/RefreshTokenService.java:24-71 | saving or deleting one member's token leaves every other member's token as it was |
| EmailVerification.CodeKeyMeetsFlagKey | src/main/java/com/clody/global/email/EmailVerificationService.java:62-81 | a code key equals a flag key exactly when the code's email is `verified:` followed by the flag's email |
| EmailVerification.EmailKeysDistinct | src/main/java/com/clody/global/email/EmailVerificationService.java:25-81 | different emails have different code keys and flag keys, and no valid address's code key is any flag key |
| EmailVerification.GenerateVerificationCode | src/main/java/com/clody/global/email/EmailVerificationService.java:98-107 | the code is six decimal digits, one per draw of nextInt(10), in draw order |
| EmailVerification.GenerateAndSaveVerificationCode | src/main/java/com/clody/global/email/EmailVerificationService.java:29-60 | the returned code is a six-digit code, now stored under the email's code key, replacing any pending one; nothing else changes, whatever the mail delivery does |
| EmailVerification.VerifyOutcome | src/main/java/com/clody/global/email/EmailVerificationService.java:62-85 | no pending code is EMAIL_VERIFICATION_CODE_EXPIRED, a different code is EMAIL_VERIFICATION_CODE_INVALID, the stored code is success |
| EmailVerification.VerifyCode | src/main/java/com/clody/global/email/EmailVerificationService.java:62-85 | a failure leaves the store unchanged (a wrong guess does not consume the code); success deletes the code, sets the flag to "true" and answers true |
| EmailVerification.IsEmailVerified | src/main/java/com/clody/global/email/EmailVerificationService.java:87-91 | holds exactly when the flag key is present with the value "true"; a missing flag reads as null and is not verified |
| EmailVerification.IsEmailVerifiedOfFlag | src/main/java/com/clody/global/email/EmailVerificationService.java:87-91 | writing v to the flag verifies exactly when v is "true", a removed flag never verifies, and storing another address's code does not change the answer |
| EmailVerification.RemoveVerifiedFlag | src/main/java/com/clody/global/email/EmailVerificationService.java:93-96 | deletes the flag key and nothing else |
| EmailVerification.CodeVerifiesOnce | src/main/java/com/clody/global/email/EmailVerificationService.java:29-96 | a stored code verifies and marks the email verified; a second attempt reports the code expired; removing the flag makes the email unverified again |
| EmailVerification.OtherEmailsUntouched | src/main/java/com/clody/global/email/EmailVerificationService.java:62-96 | verifying, or removing the flag of, one valid address changes neither the pending code nor the verified state of any other address |
| Members.WithEmail | src/main/java/com/clody/domain/member/repository/MemberRepository.java:10 | every row returned has that email and is a row of the table, and there are no more of them than rows |
| Members.WithEmailCount | src/main/java/com/clody/domain/member/repository/MemberRepository.java:10 | no match exactly when no row has the email, and at most one match when emails are unique |
| Members.WithEmailEmptyIff | src/main/java/com/clody/domain/member/repository/MemberRepository.java:10 | no match exactly when no row has the email |
| Members.WithEmailAtMostOne | src/main/java/com/clody/domain/member/repository/MemberRepository.java:10 | with unique emails an email matches at most one row |
| Members.FindByEmail | src/main/java/com/clody/domain/member/repository/MemberRepository.java:10 | no row is an empty Optional, one row is that member, and several rows are the non-unique-result error |
| Members.IndexOfId | src/main/java/com/clody/domain/member/repository/MemberRepository.java:9 | the position of the row holding the id, or none when no row has it |
| Members.FindById | src/main/java/com/clody/domain/member/repository/MemberRepository.java:9 | the member with that id, or none exactly when no row has it |
| Members.IndexOfIdUnique | src/main/java/com/clody/domain/member/entity/Member.java:25-28 | with identity ids (ascending), looking up a row's id finds that row |
| Members.FindByIdAfterReplace | src/main/java/com/clody/domain/member/entity/Member.java:25-28 | a row replaced under the same id is found again, and every other id finds what it found before |
| Members.InsertKeepsEmailsUnique | src/main/java/com/clody/domain/member/repository/MemberRepository.java:12 | adding a row with an unregistered email keeps emails unique |
| Members.MemberTable.Insert | src/main/java/com/clody/domain/member/entity/Member.java:25-28 | the member is appended under the next identity value, which the saved copy carries; ids stay ascending |
| Members.MemberTable.Update | src/main/java/com/clody/domain/member/service/MemberCommandService.java:151-152 | the row holding the member's id is replaced by the member, identity values and token rows are unchanged, and ids stay ascending |
| Members.MemberTable.AddToken | src/main/java/com/clody/domain/member/entity/Member.java:74-76 | one member_token row for the member is added by cascade |
| Auth.LoginOutcome | src/main/java/com/clody/domain/auth/service/AuthService.java:31-71 | unknown email is MEMBER_NOT_FOUND, then an unverified email is EMAIL_NOT_VERIFIED before the password is checked, then a non-matching password is INVALID_CREDENTIALS; success issues tokens for that member |
| Auth.LoginSucceedsIff | src/main/java/com/clody/domain/auth/service/AuthService.java:36-52 | with unique emails, login succeeds exactly when a verified member with that email has a matching password, and logs in that member |
| Auth.Login | src/main/java/com/clody/domain/auth/service/AuthService.java:31-71 | the outcome is LoginOutcome; a failure leaves the token store unchanged, a success leaves exactly the new refresh token stored for the member |
| Auth.Logout | src/main/java/com/clody/domain/auth/service/AuthService.java:73-80 | the member's token key is removed and nothing else changes; the message is the fixed logout text |
| Auth.RefreshAttempt | src/main/java/com/clody/domain/auth/service/AuthService.java:85-127 | an invalid or non-refresh token is INVALID_TOKEN; success exactly when the token validates, is a refresh token, names a member whose stored token it is, and that member exists |
| Auth.RefreshOutcome | src/main/java/com/clody/domain/auth/service/AuthService.java:129-132 | every failure of the attempt is reported as INVALID_TOKEN; success carries the reissued pair |
| Auth.Refresh | src/main/java/com/clody/domain/auth/service/AuthService.java:82-133 | the outcome is RefreshOutcome; a failure leaves the store unchanged, a success replaces the member's token by the new one |
| Auth.RefreshRotates | src/main/java/com/clody/domain/auth/service/AuthService.java:120-123 | after a refresh the new token is accepted, and the old one only if it equals the new |
| Auth.LoginThenRefresh | src/main/java/com/clody/domain/auth/service/AuthService.java:59-66 | the refresh token a login issues is accepted by a later refresh |
| Auth.LogoutRevokes | src/main/java/com/clody/domain/auth/service/AuthService.java:73-80 | after logout no token of that member is accepted by refresh |
| MemberCommand.SendEmailVerification | src/main/java/com/clody/domain/member/service/MemberCommandService.java:36-54 | a registered email is EMAIL_ALREADY_EXISTS with nothing stored; otherwise a fresh six-digit code is stored for the email and nothing else changes |
| MemberCommand.VerifyEmail | src/main/java/com/clody/domain/member/service/MemberCommandService.java:56-74 | verifyCode's failures pass through, success is verified; the EMAIL_VERIFICATION_FAILED branch is never taken |
| MemberCommand.SignUpRejection | src/main/java/com/clody/domain/member/service/MemberCommandService.java:82-97 | no verified flag is EMAIL_NOT_VERIFIED, then a registered email is EMAIL_ALREADY_EXISTS, then a taken nickname is NICKNAME_ALREADY_EXISTS; none when all pass |
| MemberCommand.SignUp | src/main/java/com/clody/domain/member/service/MemberCommandService.java:76-135 | a rejection changes nothing; success appends the new verified, public member under the next id with the encoded password, adds its refresh token as a member_token row only, and removes the verified flag |
| MemberCommand.SignUpThenLogin | src/main/java/com/clody/domain/member/service/MemberCommandService.java:100-110 | signup keeps emails unique and the new member can log in with the chosen password |
| MemberCommand.SignUpRefreshTokenRejected | src/main/java/com/clody/domain/member/service/MemberCommandService.java:113-126 | the refresh token signup returns is refused by the refresh endpoint with INVALID_TOKEN (see Findings) |
| MemberCommand.SignUpWithSession | src/main/java/com/clody/domain/member/service/MemberCommandService.java:113-129 | corrected signup: as written, and the refresh token is also saved in the refresh-token store |
| MemberCommand.SignUpWithSessionRefreshes | src/main/java/com/clody/domain/auth/service/AuthService.java:82-133 | the token returned by the corrected signup is accepted by a later refresh |
| MemberCommand.UpdateAccountScope | src/main/java/com/clody/domain/member/service/MemberCommandService.java:137-162 | the current scope is SAME_ACCOUNT_SCOPE with nothing changed; otherwise the member's row gets the new scope and the message names it |
| MemberCommand.ScopeChangeFound | src/main/java/com/clody/domain/member/service/MemberCommandService.java:150-152 | after a scope change the member is found with the new scope and its other fields unchanged, and other members are found as before |
| MemberCommand.SendPasswordResetVerification | src/main/java/com/clody/domain/member/service/MemberCommandService.java:171-189 | an unregistered email is NOT_FOUND; otherwise the reset code is handed on |
| MemberCommand.VerifyPasswordResetCode | src/main/java/com/clody/domain/member/service/MemberCommandService.java:191-215 | an unregistered email is NOT_FOUND before the code is checked; a failing check passes its error, a false answer is EMAIL_VERIFICATION_FAILED |
| MemberCommand.ChangePassword | src/main/java/com/clody/domain/member/service/MemberCommandService.java:217-251 | no reset flag is EMAIL_NOT_VERIFIED, then a password the current hash accepts is SAME_PASSWORD, with nothing changed; otherwise the row gets the encoded new password |
| MemberCommand.LoginAfterPasswordChange | src/main/java/com/clody/domain/member/service/MemberCommandService.java:236-240 | after a change the member logs in with the new password, and a password the new hash refuses is INVALID_CREDENTIALS |
| MemberCommand.ExtractS3KeyFromUrl | src/main/java/com/clody/domain/member/service/MemberCommandService.java:299-315 | blank is none; a URL containing `.amazonaws.com/` gives the text after its first occurrence; otherwise none |
| MemberCommand.ExtractS3KeyOfUrl | src/main/java/com/clody/domain/member/service/MemberCommandService.java:305-308 | the key is recovered from the S3 URL of the object it names, for keys that URL encoding leaves unchanged |
| MemberCommand.ReplacedImageKeyFound | src/main/java/com/clody/domain/member/service/MemberCommandService.java:261-270 | the key of an uploaded profile image is found again when the image is replaced, so the old object is the one deleted |
| MemberCommand.UploadProfileImage | src/main/java/com/clody/domain/member/service/MemberCommandService.java:253-297 | a rejected file keeps its error with nothing changed; otherwise the file goes under a fresh profile key and the row gets the new URL; an upload failure is INVALID_IMAGE_FILE with the row unchanged |
| Nickname.NicknameGuard | src/main/java/com/clody/domain/member/controller/MemberController.java:65-73 | blank after trimming, then a length outside 2..20 counted in UTF-16 code units as `String.length()` counts, then a character outside `[가-힣a-zA-Z0-9_-]`, each with its message; none when all pass |
| Nickname.NicknameGuardIff | src/main/java/com/clody/domain/member/controller/MemberController.java:65-73 | a nickname passes exactly when it is 2 to 20 pattern characters |
| Nickname.CheckNickname | src/main/java/com/clody/domain/member/service/MemberQueryService.java:21-31 | a rejected nickname is not looked up; an accepted one is available exactly when no member has it, with the matching message |
| ImageValidation.FileExtension | src/main/java/com/clody/global/util/ImageValidationUtil.java:57-63 | empty when the name has no '.', otherwise the suffix that follows the last '.'; it never contains a '.' |
| ImageValidation.FileExtensionOf | src/main/java/com/clody/global/util/ImageValidationUtil.java:57-63 | a name ending in '.' and a dot-free extension has that extension |
| ImageValidation.ValidateImageFile | src/main/java/com/clody/global/util/ImageValidationUtil.java:20-55 | a missing or empty file is INVALID_IMAGE_FILE; IMAGE_FILE_TOO_LARGE exactly for a file above 5 MiB; INVALID_IMAGE_FILE exactly for a missing or empty file, or one that passes the size and content-type checks with a blank name; every rejection is one of the three image codes |
| ImageValidation.ValidateImageFileOkIff | src/main/java/com/clody/global/util/ImageValidationUtil.java:14-51 | a file is accepted exactly when non-empty, at most 5 MiB, with an allowed content type and extension ignoring case, and a non-blank name |
| ImageValidation.AllowedExtensionsLong | src/main/java/com/clody/global/util/ImageValidationUtil.java:14 | every allowed extension has at least three characters |
| ImageValidation.ValidationOrder | src/main/java/com/clody/global/util/ImageValidationUtil.java:27-31 | a too-large file is reported as such whatever else is wrong, and a file of exactly 5 MiB is validated as any smaller non-empty file with the same type and name is |
| ImageValidation.ProfileImageKeyShape | src/main/java/com/clody/global/util/ImageValidationUtil.java:65-72 | the key is `profile/<memberId>/...`, and ends in the uploaded file's extension |
| ImageValidation.ProfileImageKeysOfMembersDiffer | src/main/java/com/clody/global/util/ImageValidationUtil.java:65-72 | keys of different members never coincide |
| CurrentUser.SupportsParameter | src/main/java/com/clody/global/auth/CurrentUserArgumentResolver.java:28-32 | true exactly for a @CurrentUser parameter whose type is Member or a subclass |
| CurrentUser.SupportsParameterIff | src/main/java/com/clody/global/auth/CurrentUserArgumentResolver.java:28-32 | the resolver takes exactly the annotated Member parameters |
| CurrentUser.AllDigitsIff | src/main/java/com/clody/global/auth/CurrentUserArgumentResolver.java:64-71 | a string of digits is non-blank exactly when it is non-empty |
| CurrentUser.IsAllDigits | src/main/java/com/clody/global/auth/CurrentUserArgumentResolver.java:64-71 | true exactly when the string is non-blank and every character is a digit |
| CurrentUser.PrincipalMemberId | src/main/java/com/clody/global/auth/CurrentUserArgumentResolver.java:46-58 | a Long principal is its id; a digit String is its value, and one above Long.MAX_VALUE fails; anything else is JWT_INVALID_TOKEN |
| CurrentUser.StringPrincipalOfId | src/main/java/com/clody/global/auth/CurrentUserArgumentResolver.java:51-54 | an id as a decimal String resolves to the same id as the Long principal |
| CurrentUser.ResolveArgument | src/main/java/com/clody/global/auth/CurrentUserArgumentResolver.java:35-62 | no authentication or a null principal is JWT_INVALID_TOKEN; an undecodable principal keeps that error; an id without a member is NOT_FOUND; otherwise that member |
| CurrentUser.ResolvesOwnMember | src/main/java/com/clody/global/auth/CurrentUserArgumentResolver.java:60-61 | a Long principal holding a member's id resolves to that member |
| JwtFilter.ExtractToken | src/main/java/com/clody/global/auth/JwtAuthenticationFilter.java:55-66 | a header starting with `Bearer ` gives the rest; anything else gives no token |
| JwtFilter.ExtractTokenRoundTrip | src/main/java/com/clody/global/auth/JwtAuthenticationFilter.java:59-60 | every token is recovered from the header built from it, and `bearer ` or `Bearer` without the space carry no token |
| JwtFilter.AfterFilter | src/main/java/com/clody/global/auth/JwtAuthenticationFilter.java:35-50 | the authentication is replaced exactly when the header carries a token JwtUtil validates, with the memberId claim as principal, and kept otherwise |
| JwtFilter.FilterChain.DoFilter | src/main/java/com/clody/global/auth/JwtAuthenticationFilter.java:52 | the chain's invocation count goes up by one |
| JwtFilter.DoFilterInternal | src/main/java/com/clody/global/auth/JwtAuthenticationFilter.java:27-53 | the context becomes AfterFilter's, and the chain is entered exactly once whatever the header held |
| JwtFilter.FilterThenResolve | src/main/java/com/clody/global/auth/JwtAuthenticationFilter.java:27-53 | a valid bearer token whose memberId names a member resolves to that member; no usable token, or no memberId claim, fails with JWT_INVALID_TOKEN |
| CommentClosure.AncestorCompose | src/main/java/com/clody/domain/comment/entity/Comment.java:42-44 | following i parent steps and then j more is following i + j |
| CommentClosure.AncestorBelow | src/main/java/com/clody/domain/comment/entity/Comment.java:42-44 | in a well-formed table every ancestor is a comment, and a proper ancestor has a smaller id and the same OOTD |
| CommentClosure.ConsistentPairsUnique | src/main/java/com/clody/domain/comment/entity/CommentClosure.java:12 | under the invariant no two closure rows share a pair, so the unique constraint never fires |
| CommentClosure.SelfLinkPresent | src/main/java/com/clody/domain/comment/repository/CommentClosureRepository.java:16-17 | under the invariant every comment has its self link at depth 0 |
| CommentClosure.SubtreeIdsExact | src/main/java/com/clody/domain/comment/repository/CommentClosureRepository.java:28-29 | under the invariant findSubtreeIds(c) is exactly the comments below c by the parent references |
| CommentClosure.SubtreeDownwardClosed | src/main/java/com/clody/domain/comment/repository/CommentClosureRepository.java:28-29 | whatever has an ancestor in the subtree of c is in it |
| CommentClosure.Shifted | src/main/java/com/clody/domain/comment/repository/CommentClosureRepository.java:19-26 | every row the insert selects ends at the new comment, at depth at least one |
| CommentClosure.ShiftedFrom | src/main/java/com/clody/domain/comment/repository/CommentClosureRepository.java:19-26 | every shifted link comes from a link ending at the parent, one level shallower |
| CommentClosure.ShiftedContains | src/main/java/com/clody/domain/comment/repository/CommentClosureRepository.java:19-26 | every link ending at the parent has its shifted copy |
| CommentClosure.ShiftedKeepsPairsUnique | src/main/java/com/clody/domain/comment/repository/CommentClosureRepository.java:19-26 | inserting the shifted links keeps pairs unique when none of them is present |
| CommentClosure.SubtreeIds | src/main/java/com/clody/domain/comment/repository/CommentClosureRepository.java:28-29 | exactly the descendants of the links whose ancestor is c |
| CommentClosure.Untouched | src/main/java/com/clody/domain/comment/repository/CommentClosureRepository.java:31-33 | exactly the links touching none of the ids |
| CommentClosure.ClosureTable.InsertSelfLink | src/main/java/com/clody/domain/comment/repository/CommentClosureRepository.java:16-17 | adds (n, n, 0), or fails on the unique constraint with the table unchanged |
| CommentClosure.ClosureTable.InsertAncestorLinksFromParent | src/main/java/com/clody/domain/comment/repository/CommentClosureRepository.java:19-26 | adds all shifted links at once, or fails as a whole with the table unchanged |
| CommentClosure.ClosureTable.DeleteLinksForIds | src/main/java/com/clody/domain/comment/repository/CommentClosureRepository.java:31-33 | removes every row whose ancestor or descendant is among the ids, and nothing else |
| CommentClosure.CommentTable.Save | src/main/java/com/clody/domain/comment/entity/Comment.java:26-29 | the comment is stored under the next identity value, which is returned |
| CommentClosure.CommentTable.DeleteAllByIdInBatch | src/main/java/com/clody/domain/comment/service/commentCommandService/CommentCommandServiceImpl.java:82 | the rows of the ids are removed, the others kept, and the identity counter is unchanged |
| CommentClosure.OnOotd | src/main/java/com/clody/domain/comment/repository/CommentRepository.java:13-15 | exactly the ids of the comments on that OOTD |
| CommentClosure.EarliestExists | src/main/java/com/clody/domain/comment/repository/CommentRepository.java:16 | every non-empty set of comments has an earliest one in (createdAt, id) order |
| CommentClosure.Earliest | src/main/java/com/clody/domain/comment/repository/CommentRepository.java:16 | an element of the set that precedes every other element in (createdAt, id) order |
| CommentClosure.PrependEarliest | src/main/java/com/clody/domain/comment/repository/CommentRepository.java:16 | the earliest in front of a sorted listing of the others is sorted |
| CommentClosure.InCreationOrder | src/main/java/com/clody/domain/comment/repository/CommentRepository.java:16 | every id of the set exactly once, strictly ordered by createdAt then id |
| CommentClosure.IdsOf | src/main/java/com/clody/domain/comment/repository/CommentRepository.java:12-18 | the ids of the fetched rows, in the same order |
| CommentClosure.RowsOf | src/main/java/com/clody/domain/comment/repository/CommentRepository.java:12-18 | the rows of the ids, in the same order |
| CommentClosure.FindAllByOotdIdWithMember | src/main/java/com/clody/domain/comment/repository/CommentRepository.java:12-18 | every comment on the OOTD exactly once, ordered by createdAt and then id |
| CommentClosure.CountByOotdId | src/main/java/com/clody/domain/comment/repository/CommentRepository.java:20-21 | the number of comments on the OOTD |
| CommentCommand.AncestorExtend | src/main/java/com/clody/domain/comment/service/commentCommandService/CommentCommandServiceImpl.java:49-54 | adding a row with a fresh id changes no ancestor of an existing comment |
| CommentCommand.AddInsertsSucceed | src/main/java/com/clody/domain/comment/service/commentCommandService/CommentCommandServiceImpl.java:57-62 | under the invariant both inserts of add succeed |
| CommentCommand.AddLinkSound | src/main/java/com/clody/domain/comment/service/commentCommandService/CommentCommandServiceImpl.java:57-62 | after add every closure row names a real ancestor at its depth |
| CommentCommand.AddLinkComplete | src/main/java/com/clody/domain/comment/service/commentCommandService/CommentCommandServiceImpl.java:57-62 | after add every ancestor pair has its closure row |
| CommentCommand.AddPreservesConsistent | src/main/java/com/clody/domain/comment/service/commentCommandService/CommentCommandServiceImpl.java:34-65 | add keeps the closure table equal to the ancestor relation |
| CommentCommand.AncestorRestrict | src/main/java/com/clody/domain/comment/service/commentCommandService/CommentCommandServiceImpl.java:76-82 | a comment outside the deleted subtree keeps all its ancestors |
| CommentCommand.DeletePreservesConsistent | src/main/java/com/clody/domain/comment/service/commentCommandService/CommentCommandServiceImpl.java:69-83 | deleteCascade keeps the closure table equal to the ancestor relation |
| CommentCommand.Add | src/main/java/com/clody/domain/comment/service/commentCommandService/CommentCommandServiceImpl.java:34-65 | a missing OOTD, then member, then parent, then a parent on another OOTD, is an error; any error leaves both tables' rows unchanged; success saves the comment under the next id and adds the parent's links shifted down plus the self link; the invariant is kept, and under it every allowed add succeeds |
| CommentCommand.DeleteCascade | src/main/java/com/clody/domain/comment/service/commentCommandService/CommentCommandServiceImpl.java:69-83 | a missing comment, then another author, is an error with nothing changed; the author's request removes the rows found by the closure lookup and every link touching them; under the invariant that is the comment's whole subtree by parent references, and the invariant is kept |
| CommentQuery.Known | src/main/java/com/clody/domain/comment/service/commentQueryService/CommentQueryServiceImpl.java:27-36 | every fetched id is in it |
| CommentQuery.ChildRowsFacts | src/main/java/com/clody/domain/comment/service/commentQueryService/CommentQueryServiceImpl.java:38-48 | the rows below p among the first n have the ids of ChildIds |
| CommentQuery.RootRowsFacts | src/main/java/com/clody/domain/comment/service/commentQueryService/CommentQueryServiceImpl.java:38-48 | the root rows among the first n have the ids of RootIds |
| CommentQuery.ChildrenOf | src/main/java/com/clody/domain/comment/service/commentQueryService/CommentQueryServiceImpl.java:41-43 | fetched rows whose parent is p, with the ids of the children the second loop attaches, in fetch order |
| CommentQuery.RootsOf | src/main/java/com/clody/domain/comment/service/commentQueryService/CommentQueryServiceImpl.java:44-46 | fetched rows with no parent or no fetched parent, with the ids the second loop lists as roots, in fetch order |
| CommentQuery.TreeOf | src/main/java/com/clody/domain/comment/service/commentQueryService/CommentQueryServiceImpl.java:23-50 | the tree of a fetched row carries its id, and its replies carry the ids of its children in fetch order |
| CommentQuery.Forest | src/main/java/com/clody/domain/comment/service/commentQueryService/CommentQueryServiceImpl.java:23-50 | one tree per root, carrying the root ids in fetch order |
| CommentQuery.FetchedIsForest | src/main/java/com/clody/domain/comment/repository/CommentRepository.java:12-18 | the fetched rows have distinct ids and every reply's parent is fetched, so the roots are exactly the comments without a parent |
| CommentQuery.FetchedParent | src/main/java/com/clody/domain/comment/repository/CommentRepository.java:12-18 | the parent of a fetched reply is fetched too and has a smaller id |
| CommentQuery.FetchedDistinct | src/main/java/com/clody/domain/comment/repository/CommentRepository.java:12-18 | the fetched ids are distinct |
| CommentQuery.GetAllComments | src/main/java/com/clody/domain/comment/service/commentQueryService/CommentQueryServiceImpl.java:23-50 | one DTO per fetched id, holding the ids of its fetched children in fetch order, and the roots are the fetched rows without a fetched parent, in fetch order |
| CommentQuery.AttachStep | src/main/java/com/clody/domain/comment/service/commentQueryService/CommentQueryServiceImpl.java:41-43 | one step of the second loop appends row i to its parent's children |
| CommentQuery.RootStep | src/main/java/com/clody/domain/comment/service/commentQueryService/CommentQueryServiceImpl.java:44-46 | one step of the second loop appends row i to the roots unless its parent was fetched |
| CommentQuery.IndexNodes | src/main/java/com/clody/domain/comment/service/commentQueryService/CommentQueryServiceImpl.java:27-36 | the first loop: one childless DTO per fetched row, keyed by id |
| CommentQuery.LinkNodes | src/main/java/com/clody/domain/comment/service/commentQueryService/CommentQueryServiceImpl.java:38-48 | the second loop: every DTO gains the ids of its fetched children in fetch order, and the roots are the rows without a fetched parent |
| CommentQuery.UpBelow | src/main/java/com/clody/domain/comment/service/commentQueryService/CommentQueryServiceImpl.java:38-48 | walking up the fetched parents strictly decreases the id |
| CommentQuery.UpUnique | src/main/java/com/clody/domain/comment/service/commentQueryService/CommentQueryServiceImpl.java:38-48 | the walk up never revisits a comment |
| CommentQuery.TopExists | src/main/java/com/clody/domain/comment/service/commentQueryService/CommentQueryServiceImpl.java:38-48 | every fetched comment lies below the top of its chain of fetched parents |
| CommentQuery.ChildIdsCount | src/main/java/com/clody/domain/comment/service/commentQueryService/CommentQueryServiceImpl.java:41-43 | a child occurs once among its parent's children |
| CommentQuery.RootIdsCount | src/main/java/com/clody/domain/comment/service/commentQueryService/CommentQueryServiceImpl.java:44-46 | a root occurs once among the roots |
| CommentQuery.OneChildHolds | src/main/java/com/clody/domain/comment/service/commentQueryService/CommentQueryServiceImpl.java:38-48 | when x is strictly below r, exactly one child's tree holds x |
| CommentQuery.TreeCount | src/main/java/com/clody/domain/comment/service/commentQueryService/CommentQueryServiceImpl.java:23-50 | the tree of a fetched row holds exactly the comments below it, each once |
| CommentQuery.OneRootHolds | src/main/java/com/clody/domain/comment/service/commentQueryService/CommentQueryServiceImpl.java:38-48 | a fetched comment lies in exactly one root's tree |
| CommentQuery.NoRootHolds | src/main/java/com/clody/domain/comment/service/commentQueryService/CommentQueryServiceImpl.java:38-48 | no tree holds an id that was not fetched |
| CommentQuery.ForestCount | src/main/java/com/clody/domain/comment/service/commentQueryService/CommentQueryServiceImpl.java:23-50 | the response holds every fetched comment exactly once, and nothing else |
| CommentQuery.ResponseListsEachCommentOnce | src/main/java/com/clody/domain/comment/service/commentQueryService/CommentQueryServiceImpl.java:23-50 | in a well-formed table the response lists every comment of the OOTD exactly once |
| CommentQuery.CountByOotd | src/main/java/com/clody/domain/comment/service/commentQueryService/CommentQueryServiceImpl.java:54-56 | the number of comments getAllComments fetches |
| Likes.LikersOf | src/main/java/com/clody/domain/ootd/repository/OotdLikeRepository.java:13 | exactly the members with a like row for the OOTD |
| Likes.StateOf | src/main/java/com/clody/domain/ootd/service/ootdLikeQueryService/OotdLikeQueryServiceImpl.java:16-20 | the count of likers, and liked exactly when a member is given whose like row exists |
| Likes.Count | src/main/java/com/clody/domain/ootd/service/ootdLikeQueryService/OotdLikeQueryServiceImpl.java:24-26 | the number of likers, the same as the state's |
| Likes.LikeTable.ExistsBy | src/main/java/com/clody/domain/ootd/repository/OotdLikeRepository.java:13 | true exactly when the pair is stored; nothing changes |
| Likes.LikeTable.CountBy | src/main/java/com/clody/domain/ootd/repository/OotdLikeRepository.java:15 | the number of rows of the OOTD; nothing changes |
| Likes.LikeTable.Save | src/main/java/com/clody/domain/ootd/entity/OotdLike.java:15-18 | the pair is in the table afterwards, whether or not it was before, and nothing else changes |
| Likes.LikeTable.DeleteBy | src/main/java/com/clody/domain/ootd/repository/OotdLikeRepository.java:18-19 | the pair is not stored afterwards; nothing else changes |
| Likes.LikeOotd | src/main/java/com/clody/domain/ootd/service/ootdLikeCommandService/OotdLikeCommandServiceImpl.java:28-42 | a missing OOTD, then a missing member, is an error with nothing changed; otherwise the pair is stored and the state is liked with the new count |
| Likes.UnlikeOotd | src/main/java/com/clody/domain/ootd/service/ootdLikeCommandService/OotdLikeCommandServiceImpl.java:46-55 | the same checks; otherwise the pair is removed and the state is not liked with the new count |
| Likes.LikeCountAfterLike | src/main/java/com/clody/domain/ootd/service/ootdLikeCommandService/OotdLikeCommandServiceImpl.java:34-41 | liking adds one to the count exactly when the member had not liked the OOTD |
| Likes.LikeCountAfterUnlike | src/main/java/com/clody/domain/ootd/service/ootdLikeCommandService/OotdLikeCommandServiceImpl.java:52-54 | unliking takes one from the count exactly when the member had liked the OOTD |
| Likes.OtherOotdsUntouched | src/main/java/com/clody/domain/ootd/service/ootdLikeCommandService/OotdLikeCommandServiceImpl.java:28-55 | liking or unliking one OOTD leaves every other OOTD's likers unchanged |
| Likes.LikeUnlikeLaws | src/main/java/com/clody/domain/ootd/service/ootdLikeCommandService/OotdLikeCommandServiceImpl.java:28-55 | on the tables LikeOotd and UnlikeOotd leave: a repeated like or unlike changes neither the table nor the response; unlike after the like of a new pair restores the table and reports the old count, and like after the unlike of a stored pair restores the table and the count |
| Hashtags.FindName | src/main/java/com/clody/domain/hashtag/service/query/HashtagQueryServiceImpl.java:32-36 | the first position at or after i holding the name, none when no such position holds it |
| Hashtags.ParseCategory | src/main/java/com/clody/domain/hashtag/service/query/HashtagQueryServiceImpl.java:26-40 | blank is BLANK_EXIST; otherwise the first category whose name equals the trimmed input, or NOT_FOUND when none does; success exactly when the input is non-blank and some name equals its trimmed text |
| Hashtags.TrimOfTrimmed | src/main/java/com/clody/domain/hashtag/service/query/HashtagQueryServiceImpl.java:30 | a string without trimmable ends trims to itself |
| Hashtags.ParseCategoryOfName | src/main/java/com/clody/domain/hashtag/service/query/HashtagQueryServiceImpl.java:26-40 | a category's own name parses to that category |
| Hashtags.ParseCategoryIgnoresPadding | src/main/java/com/clody/domain/hashtag/service/query/HashtagQueryServiceImpl.java:30 | any run of characters trim removes, before and after a name, leaves the parse unchanged |
| Hashtags.ParseCategoryOfTrimmed | src/main/java/com/clody/domain/hashtag/service/query/HashtagQueryServiceImpl.java:27-36 | an input that keeps something after trimming parses as its trimmed text does |
| Hashtags.ParseAll | src/main/java/com/clody/domain/hashtag/service/query/HashtagQueryServiceImpl.java:42-45 | on success one category per element, each the element's parse; on failure the error of the first element that fails |
| Hashtags.ParseCategoryList | src/main/java/com/clody/domain/hashtag/service/query/HashtagQueryServiceImpl.java:42-45 | a null list is empty; otherwise ParseAll |
| Hashtags.ParseAllSucceeds | src/main/java/com/clody/domain/hashtag/service/query/HashtagQueryServiceImpl.java:42-45 | when every element parses, the list parses to their categories in order |
| Hashtags.CategoryAt | src/main/java/com/clody/domain/hashtag/repository/HashtagRepository.java:12 | every category of the first n rows is one of those rows' categories |
| Hashtags.FindByCategoryIn | src/main/java/com/clody/domain/hashtag/repository/HashtagRepository.java:12 | every row returned is a table row of an asked category |
| Hashtags.FindAllByCategories | src/main/java/com/clody/domain/hashtag/service/query/HashtagQueryServiceImpl.java:49-64 | an empty request is an empty list; the only error is NOT_FOUND; every row returned is a table row of an asked category |
| Hashtags.FindUpToCount | src/main/java/com/clody/domain/hashtag/service/query/HashtagQueryServiceImpl.java:53 | with unique categories, one row per asked category that exists |
| Hashtags.NewCategory | src/main/java/com/clody/domain/hashtag/service/query/HashtagQueryServiceImpl.java:53 | with unique categories, each row brings a category the earlier rows lack |
| Hashtags.FindAllByCategoriesOkIff | src/main/java/com/clody/domain/hashtag/service/query/HashtagQueryServiceImpl.java:49-64 | success exactly when every asked category has a row, and then exactly one row per asked category |
| Hashtags.SplitCount | src/main/java/com/clody/domain/hashtag/service/query/HashtagQueryServiceImpl.java:57-61 | the asked categories split into found and missing |
| Hashtags.CategoryFound | src/main/java/com/clody/domain/hashtag/service/query/HashtagQueryServiceImpl.java:51 | a row of an asked category is among the rows found |
| Hashtags.FindUpToDistinct | src/main/java/com/clody/domain/hashtag/service/query/HashtagQueryServiceImpl.java:51 | the rows found have distinct categories |
| Hashtags.SetOfSize | src/main/java/com/clody/domain/ootd/service/ootdCommandService/OotdCommandServiceImpl.java:44 | a list has at least as many elements as its set |
| OotdStore.LengthOfMonth | src/main/java/com/clody/domain/ootd/service/ootdQueryService/OotdQueryServiceImpl.java:118 | the month's length is 28 to 31 days, 29 in February exactly in a leap year |
| OotdStore.MonthWindow | src/main/java/com/clody/domain/ootd/service/ootdQueryService/OotdQueryServiceImpl.java:116-119 | the first of the month at midnight to its last day at 23:59:59.999; an invalid year or month is an error |
| OotdStore.MonthWindowCovers | src/main/java/com/clody/domain/ootd/service/ootdQueryService/OotdQueryServiceImpl.java:116-119 | a date-time is in the window exactly when it falls in that month, except the last 999999 nanoseconds |
| OotdStore.InMonth | src/main/java/com/clody/domain/ootd/repository/OotdRepository.java:17-20 | exactly the member's OOTDs in the window, in table order |
| OotdStore.Matching | src/main/java/com/clody/domain/ootd/repository/OotdRepository.java:44-72 | at most n rows |
| OotdStore.MatchingMembers | src/main/java/com/clody/domain/ootd/repository/OotdRepository.java:44-72 | Matching holds exactly the selected rows |
| OotdStore.MatchingDescending | src/main/java/com/clody/domain/ootd/repository/OotdRepository.java:44-72 | Matching is strictly descending by id |
| OotdStore.Take | src/main/java/com/clody/domain/ootd/service/ootdQueryService/OotdQueryServiceImpl.java:48 | the first limit elements |
| OotdStore.PageSound | src/main/java/com/clody/domain/ootd/repository/OotdRepository.java:44-72 | a page lists selected OOTDs of the table in descending id order, at most limit of them, and a page that is not full holds every selected OOTD |
| OotdStore.MatchingBelow | src/main/java/com/clody/domain/ootd/repository/OotdRepository.java:47-48 | the selected rows below x are the selected rows after x |
| OotdStore.BelowOfDescending | src/main/java/com/clody/domain/ootd/repository/OotdRepository.java:47-48 | in a descending list the elements below the id at position l - 1 are those after it |
| OotdStore.AllBelow | src/main/java/com/clody/domain/ootd/repository/OotdRepository.java:47-48 | keeping the ids below x keeps all when all are below x |
| OotdStore.PagesContinue | src/main/java/com/clody/domain/ootd/service/ootdQueryService/OotdQueryServiceImpl.java:48-61 | a full first page followed by the page from its last id is the first limit1 + limit2 selected rows |
| OotdStore.TakeAfterPrefix | src/main/java/com/clody/domain/ootd/service/ootdQueryService/OotdQueryServiceImpl.java:48-61 | a prefix followed by a page of the rest is a longer prefix |
| OotdStore.PagesDisjoint | src/main/java/com/clody/domain/ootd/repository/OotdRepository.java:44-72 | every id of the next page is below every id of the current page |
| OotdStore.TruncatedHalf | src/main/java/com/clody/domain/ootd/repository/OotdRepository.java:31 | half the sum, truncated toward zero |
| OotdCommand.RawTags | src/main/java/com/clody/domain/ootd/service/ootdCommandService/OotdCommandServiceImpl.java:39 | a null list is empty |
| OotdCommand.CreateHashtags | src/main/java/com/clody/domain/ootd/service/ootdCommandService/OotdCommandServiceImpl.java:39-44 | more than six tags is TOO_MANY_HASHTAGS, then the parse errors, then the lookup of the distinct categories |
| OotdCommand.CreateHashtagsDeduplicated | src/main/java/com/clody/domain/ootd/service/ootdCommandService/OotdCommandServiceImpl.java:43-44 | duplicate tags collapse: one row per distinct category named, each once, at most six |
| OotdCommand.OotdEntity.constructor | src/main/java/com/clody/domain/ootd/service/ootdCommandService/OotdCommandServiceImpl.java:46-53 | the member and the weather fields as given, no image and no mappings |
| OotdCommand.OotdEntity.SetImage | src/main/java/com/clody/domain/ootd/entity/Ootd.java:49-54 | the image holds the key, the mappings are unchanged |
| OotdCommand.OotdEntity.AddHashtag | src/main/java/com/clody/domain/ootd/service/ootdCommandService/OotdCommandServiceImpl.java:63-69 | one mapping to the hashtag appended |
| OotdCommand.DisplayNames | src/main/java/com/clody/domain/ootd/service/ootdCommandService/OotdCommandServiceImpl.java:71-73 | one Korean name per mapping, in list order |
| OotdCommand.MappingRows | src/main/java/com/clody/domain/ootd/service/ootdCommandService/OotdCommandServiceImpl.java:70 | one ootd_hashtag row per mapping, in list order |
| OotdCommand.OotdTables.Save | src/main/java/com/clody/domain/ootd/service/ootdCommandService/OotdCommandServiceImpl.java:70 | the OOTD gets a fresh id and time, with its image and mappings saved by cascade |
| OotdCommand.BuildOotd | src/main/java/com/clody/domain/ootd/service/ootdCommandService/OotdCommandServiceImpl.java:46-69 | the request's weather copied, the image set exactly for a non-blank key, one mapping per hashtag found |
| OotdCommand.CreateOotd | src/main/java/com/clody/domain/ootd/service/ootdCommandService/OotdCommandServiceImpl.java:36-83 | a missing member, then the hashtag errors, fail with nothing changed; otherwise the OOTD, its image (for a non-blank key) and one ootd_hashtag row per hashtag found are saved under the next id, and the response carries the id, nickname, key and Korean names, or the null-image failure when there is no key |
| OotdQuery.KoreanNames | src/main/java/com/clody/domain/ootd/service/ootdQueryService/OotdQueryServiceImpl.java:91 | one Korean name per category, in order |
| OotdQuery.CategoriesUpTo | src/main/java/com/clody/domain/ootdHashtag/repository/OotdHashtagRepository.java:22-27 | every category listed for the OOTD comes from one of the first n tag rows |
| OotdQuery.TagNamesStep | src/main/java/com/clody/domain/ootd/service/ootdQueryService/OotdQueryServiceImpl.java:88-92 | one more tag row adds its name to its own OOTD only |
| OotdQuery.TagViews | src/main/java/com/clody/domain/ootdHashtag/repository/OotdHashtagRepository.java:22-27 | the tag rows whose OOTD is among the ids |
| OotdQuery.CategoriesPrefix | src/main/java/com/clody/domain/ootdHashtag/repository/OotdHashtagRepository.java:22-27 | the categories of the first n rows depend only on those rows |
| OotdQuery.TagViewsKeepCategories | src/main/java/com/clody/domain/ootdHashtag/repository/OotdHashtagRepository.java:22-27 | restricting the tag rows to a set of OOTDs keeps their categories |
| OotdQuery.ImageOf | src/main/java/com/clody/domain/ootd/service/ootdQueryService/OotdQueryServiceImpl.java:79-85 | a presigned URL for a stored non-blank key, otherwise none |
| OotdQuery.ItemsOf | src/main/java/com/clody/domain/ootd/service/ootdQueryService/OotdQueryServiceImpl.java:94-102 | one item per page row, with the row's id, in page order |
| OotdQuery.FeedCategories | src/main/java/com/clody/domain/ootd/service/ootdQueryService/OotdQueryServiceImpl.java:43-46 | a missing or empty tag list is no filter; otherwise every tag parsed |
| OotdQuery.FilterOf | src/main/java/com/clody/domain/ootd/service/ootdQueryService/OotdQueryServiceImpl.java:50-58 | the category queries only for a non-empty list |
| OotdQuery.PageSizeOf | src/main/java/com/clody/domain/ootd/service/ootdQueryService/OotdQueryServiceImpl.java:48 | size + 1 for sizes below the largest int; the result is a valid page size exactly when 0 <= size < Integer.MAX_VALUE |
| OotdQuery.CommunityFeed | src/main/java/com/clody/domain/ootd/service/ootdQueryService/OotdQueryServiceImpl.java:41-111 | a tag that does not parse keeps its error; otherwise it fails (IllegalArgument from PageRequest) exactly when size < 0 or size is Integer.MAX_VALUE; a feed holds at most size items, and an empty feed has no cursor and no next page |
| OotdQuery.FeedOfPage | src/main/java/com/clody/domain/ootd/service/ootdQueryService/OotdQueryServiceImpl.java:60-110 | at most size items, and an empty feed has no cursor and no next page |
| OotdQuery.CommunityFeedPage | src/main/java/com/clody/domain/ootd/service/ootdQueryService/OotdQueryServiceImpl.java:41-111 | a feed is the first size selected rows in descending id order; hasNext exactly when more are selected, with the last id as cursor |
| OotdQuery.CommunityFeedContinues | src/main/java/com/clody/domain/ootd/service/ootdQueryService/OotdQueryServiceImpl.java:41-111 | following nextCursor gives the rows right after the current ones |
| OotdQuery.ItemsOfAppend | src/main/java/com/clody/domain/ootd/service/ootdQueryService/OotdQueryServiceImpl.java:94-102 | the items of two pages are the items of the joined pages |
| OotdQuery.PresignedUrls | src/main/java/com/clody/domain/ootd/service/ootdQueryService/OotdQueryServiceImpl.java:78-85 | a URL exactly for each id whose key is non-blank |
| OotdQuery.GroupNames | src/main/java/com/clody/domain/ootd/service/ootdQueryService/OotdQueryServiceImpl.java:87-92 | each OOTD maps to its Korean names in view order |
| OotdQuery.AssembleItems | src/main/java/com/clody/domain/ootd/service/ootdQueryService/OotdQueryServiceImpl.java:71-102 | the two loops and the mapping give the items of ItemsOf |
| OotdQuery.GetCommunityOotds | src/main/java/com/clody/domain/ootd/service/ootdQueryService/OotdQueryServiceImpl.java:41-111 | the two loops and the paging compute exactly CommunityFeed, whose meaning CommunityFeedPage and CommunityFeedContinues state |
| OotdQuery.BuildFeed | src/main/java/com/clody/domain/ootd/service/ootdQueryService/OotdQueryServiceImpl.java:60-111 | the cut and the assembly compute exactly FeedOfPage |
| OotdQuery.MonthlyOotds | src/main/java/com/clody/domain/ootd/service/ootdQueryService/OotdQueryServiceImpl.java:115-133 | a bad year or month is a DateTimeException, then a missing member 1 is MEMBER_NOT_FOUND; success exactly when neither happens |
| OotdQuery.MonthlyOotdsExact | src/main/java/com/clody/domain/ootd/service/ootdQueryService/OotdQueryServiceImpl.java:115-133 | the monthly list holds exactly member 1's OOTDs of that month up to 23:59:59.999 of its last day |
| OotdQuery.SimilarCandidates | src/main/java/com/clody/domain/ootd/repository/OotdRepository.java:22-33 | the rows member 1's similar-weather query may return |
| OotdQuery.DistinctRowsDistinctIds | src/main/java/com/clody/domain/ootd/repository/OotdRepository.java:33 | distinct rows have distinct ids |
| OotdQuery.GetRandomSimilarOotds | src/main/java/com/clody/domain/ootd/service/ootdQueryService/OotdQueryServiceImpl.java:137-165 | min(4, number of candidates) items, each the mapped row of a candidate, with pairwise distinct ids |
| Text.TrimIsMiddle | src/main/java/com/clody/domain/hashtag/service/query/HashtagQueryServiceImpl.java:30 | trim removes exactly the trimmable characters at both ends |
| Text.TrimPadded | src/main/java/com/clody/domain/hashtag/service/query/HashtagQueryServiceImpl.java:30 | padding with trimmable characters on both sides trims back to the padded text |
| Text.TrimTwice | src/main/java/com/clody/domain/hashtag/service/query/HashtagQueryServiceImpl.java:30 | trimming is idempotent |
| Text.Utf16Length | src/main/java/com/clody/domain/member/controller/MemberController.java:68 | between one and two units per character, and exactly one per character below U+10000 |
| Text.TrimEmptyIff | src/main/java/com/clody/domain/member/controller/MemberController.java:65 | trimming leaves nothing exactly when every character is trimmable |
| Text.BlankTrimsToEmpty | src/main/java/com/clody/domain/member/service/MemberCommandService.java:263 | a blank string trims to empty |
| Text.ToLower | src/main/java/com/clody/global/util/ImageValidationUtil.java:35 | the same length, each character lowered as Character.toLowerCase does on ASCII |
| Text.DigitsValueOfNatToString | src/main/java/com/clody/global/auth/CurrentUserArgumentResolver.java:54 | reading back a printed number gives the number |
| Text.IndexOf | src/main/java/com/clody/domain/member/service/MemberCommandService.java:306-308 | the first occurrence, or -1 when there is none |
| Text.LastIndexOf | src/main/java/com/clody/global/util/ImageValidationUtil.java:58 | the last position holding the character, or -1 when there is none |

## Left out

- Time to live and key expiry in Redis: codes, flags and refresh tokens never expire in the model.
- Mail delivery: sending the code is I/O, and its failure is caught, so it changes nothing the model keeps.
- JWT signing and parsing, and BCrypt: they are parameters (`Auth.JwtUtil`, an encoder and a matcher); token expiry instants are not modelled.
- S3: presigning, upload and the URL format are parameters; the swallowed delete of the old profile image has no modelled effect.
- MemberCommand.ExtractS3KeyOfUrl: the model's S3Url does not percent-encode the key as getUrl does, so the round trip is stated only for keys that encoding leaves unchanged (every key ProfileImageKey makes from a plain file name is one).
- `LocalDateTime.now`, `System.currentTimeMillis`, `UUID.randomUUID` and `SecureRandom` are parameters (a clock value, a UUID text and a list of draws).
- ORDER BY RANDOM() LIMIT 4: GetRandomSimilarOotds picks up to four distinct candidates arbitrarily; no distribution is modelled.
- OotdQuery.SimilarOf: ARRAY_AGG without ORDER BY has no defined order in SQL; the model lists an OOTD's hashtag names in tag-table order (OotdQuery.TagNames).
- OotdQuery.TagViews: findCategoriesByOotdIds has no ORDER BY, so the order of the feed's hashtag names is undefined in SQL; the model (with OotdQuery.GroupNames) keeps tag-table order.
- Hashtags.FindByCategoryIn: findByCategoryIn has no ORDER BY; the model returns the matching rows in table order, which Hashtags.FindAllByCategories passes on.
- OotdQuery.MonthlyOotds and OotdQuery.GetRandomSimilarOotds fix the member to id 1, as the implementation (OotdQueryServiceImpl lines 115 and 137) does; the memberId parameters the OotdQueryService interface declares are not used.
- OotdStore.InMonth: the monthly query has no ORDER BY, so its row order is undefined in SQL; the model returns the rows in table order.
- Collectors.toMap on duplicate OOTD ids throws; the one-to-one image mapping makes this impossible, and it is not modelled.
- getOotd (OotdQueryServiceImpl lines 180-197) is not part of this model.
- extractHashtags: the SQLException path (RETURN_FAIL) comes from the JDBC driver and is not modelled; the array is taken as returned.
- Integer widths: ids, counts and temperatures are unbounded; only `size + 1` is wrapped to 32 bits, in OotdQuery.PageSizeOf.
- Stored member ids are `nat`; a Long principal may be any integer (CurrentUser.Principal), and a negative one is looked up and not found, as in the source.
- RefreshTokens.TokenKeysDistinct: a null member id (the key `refresh_token:null`) is not modelled.
- Text: Character.isWhitespace, toLowerCase and isDigit are stated for ASCII only; other characters are kept as they are.
- The password-reset code store is not in EmailVerificationService as given (isPasswordResetVerified and the reset-code check are called but not defined there); their answers are parameters of MemberCommand.VerifyPasswordResetCode and MemberCommand.ChangePassword.
- updateNickname and the other controller endpoints that only delegate are not modelled.
- Concurrency and transaction isolation: the existsByEmail race in signup and the concurrent duplicate like (caught DataIntegrityViolationException) are modelled as sequential calls; a rolled-back transaction is modelled as no change.
- MemberToken's issuedAt, expiredAt and revoked fields are not kept; MemberTable.AddToken records the token only.
- Member.java as given declares updateAccountScope but not updatePassword or updateProfileImageUrl, which changePassword and uploadProfileImage call; the model takes them to set the password and the profile image URL.
- removePasswordResetVerifiedFlag, called by changePassword, is not in EmailVerificationService either; the reset flag it removes is not modelled.
- ImageValidation.ProfileImageKey: the UUID text is assumed to hold at least eight characters, as `UUID.toString` always does.
- OotdCommand.CreateOotd: the null image after the save throws on a null reference in the source; the model returns it as an error result after the tables have changed.

## Findings

| source | as written | input that shows it | evidently intended | confidence | as-written member | corrected member |
|---|---|---|---|---|---|---|
| src/main/java/com/clody/domain/member/service/MemberCommandService.java:113-126 | signUp stores the refresh token it returns only as a member_token row, never in the Redis refresh-token store that /auth/refresh checks | sign up, then call refresh with the returned refresh token: no `refresh_token:<id>` entry exists, so validateRefreshToken is false and the call ends in INVALID_TOKEN | save the token with saveRefreshToken as login does, so the returned token can be refreshed | medium, not executed | MemberCommand.SignUpRefreshTokenRejected | MemberCommand.SignUpWithSession |
