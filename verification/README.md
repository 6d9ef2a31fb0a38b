# Appsmith user service and navigation action, modelled in Dafny

This project models two parts of Appsmith:

- **The account-lifecycle core of the server's user service.**
  - Password reset: a rate-limited reset link is issued, the link's token is verified, and then the link is consumed once.
  - Signup: the signup gate, `userCreate`, and the signup flow. The flow either claims a disabled invited user or creates a new one.
  - Invitations: `inviteUsers`, with the creation of invited users and the invitation mails.
  - Account: switching the signed-in user's current workspace, and the refused user listing.
- **The client's `navigateTo` action.** It navigates either to an external URL or to a page of the application.

## How it is modelled

Every server operation is a pure function from an explicit state to an `Outcome`:

- `Store` holds the users, reset records, workspaces and permission groups.
- `Env` holds the collaborators the service calls. Hashing, encryption, the UUID source, the clock, mail delivery and the signed-in user are function-valued fields. `Identity.Lawful` states the only laws the model relies on: a hash matches its input, and decryption undoes encryption.
- The `Outcome` carries the new store, the side effects (mails sent, the bulk group assignment) and either the result or an `Error`.

Some of the supporting code is modelled concretely, because the reset and invite links depend on it:

- Java's string functions: `isBlank`, `toLowerCase` and `split`.
- UTF-8.
- Apache `URLEncodedUtils` `format`/`parse` and `URLEncoder.encode`.

Because these are concrete, "the link carries the email and the token" is a proof rather than an assumption.

Users are an ordered sequence, and lookups return the first match.

Two orderings follow the code closely:

- When a reset link is consumed, the user lookup comes before the password-length check.
- `split("@")[1]` follows Java: trailing empty pieces are dropped, so `a@` faults with an index error.

| file | contents |
|---|---|
| Wrappers.dfy | `Option`, `Result` |
| Text.dfy | Java whitespace, blank/empty tests, ASCII lower-casing, `String.split` on one character |
| Utf8.dfy | UTF-8 encoding, and decoding with replacement |
| FormCodec.dfy | percent-encoding and the `application/x-www-form-urlencoded` format and parser |
| Identity.dfy | users, reset records, workspaces, groups, errors, effects, the store, lookups |
| PasswordReset.dfy | issue, verify and consume of reset links |
| Signup.dfy | policies, `userCreate`, the signup gate, `createUserAndSendEmail` |
| Invite.dfy | mail parameters, invited users, `inviteUsers` |
| Account.dfy | `switchCurrentWorkspace`, `get` |
| Navigate.dfy | `navigateActionSaga` and its helpers |

## Model

| member | source | states |
|---|---|---|
| Text.Lower | app/server/appsmith-server/src/main/java/com/appsmith/server/services/ce/UserServiceCEImpl.java:681-684 | lower-casing keeps the length and maps every character through ASCII lower-casing |
| Text.LowerIdempotent | app/server/appsmith-server/src/main/java/com/appsmith/server/services/ce/UserServiceCEImpl.java:478 | lower-casing an email that is already lower-cased changes nothing |
| Text.SplitSimpleAddress | app/server/appsmith-server/src/main/java/com/appsmith/server/services/ce/UserServiceCEImpl.java:602 | splitting `local@domain` at `@` gives exactly the two pieces, so the second piece is the domain |
| Utf8.DecodeEncode | app/server/appsmith-server/src/main/java/com/appsmith/server/services/ce/UserServiceCEImpl.java:254 | decoding the UTF-8 bytes of any string gives the string back |
| FormCodec.DecodeEncode | app/server/appsmith-server/src/main/java/com/appsmith/server/services/ce/UserServiceCEImpl.java:908 | form-decoding the percent-encoding of any string gives the string back |
| FormCodec.EncodeSafeText | app/server/appsmith-server/src/main/java/com/appsmith/server/services/ce/UserServiceCEImpl.java:777 | letters, digits and `.-*_` are not escaped, so a name made of them encodes to itself |
| FormCodec.ParseFormat | app/server/appsmith-server/src/main/java/com/appsmith/server/services/ce/UserServiceCEImpl.java:251-254 | parsing the formatted list of named pairs gives back the same pairs in the same order |
| FormCodec.Lookup | app/server/appsmith-server/src/main/java/com/appsmith/server/services/ce/UserServiceCEImpl.java:909-914 | the value of the last pair with the name wins over earlier ones, and a name no pair has gives null |
| Identity.FindByEmail | app/server/appsmith-server/src/main/java/com/appsmith/server/services/ce/UserServiceCEImpl.java:227 | a user is found exactly when some user has that email, and the user found has it |
| Identity.FindByCaseInsensitiveEmail | app/server/appsmith-server/src/main/java/com/appsmith/server/services/ce/UserServiceCEImpl.java:228 | a user is found exactly when some email matches up to case |
| Identity.ExactMatchIsCaseInsensitiveMatch | app/server/appsmith-server/src/main/java/com/appsmith/server/services/ce/UserServiceCEImpl.java:227-229 | the case-insensitive fallback never loses a user the exact lookup finds |
| Identity.SaveUser | app/server/appsmith-server/src/main/java/com/appsmith/server/services/ce/UserServiceCEImpl.java:194 | after a save, the user is found under its email and every other email finds what it found before; distinct emails stay distinct |
| Identity.InsertUser | app/server/appsmith-server/src/main/java/com/appsmith/server/services/ce/UserServiceCEImpl.java:500-507 | an insert is refused with a duplicate-key error exactly when the email is taken; otherwise the user is appended and no other lookup changes |
| PasswordReset.ElapsedHours | app/server/appsmith-server/src/main/java/com/appsmith/server/services/ce/UserServiceCEImpl.java:282-283 | gives the whole hours between two instants, truncated toward zero in both directions |
| PasswordReset.WindowElapsed | app/server/appsmith-server/src/main/java/com/appsmith/server/services/ce/UserServiceCEImpl.java:282-284 | the 24-hour window has passed exactly when 86400 seconds have |
| PasswordReset.ValidateResetLimit | app/server/appsmith-server/src/main/java/com/appsmith/server/services/ce/UserServiceCEImpl.java:280-296 | refused with too-many-requests exactly when 3 requests were counted and the window has not passed; at the limit a record with no start time faults; otherwise the count goes up by one, or restarts at 1 with a new window |
| PasswordReset.CountStaysWithinLimit | app/server/appsmith-server/src/main/java/com/appsmith/server/services/ce/UserServiceCEImpl.java:280-296 | an accepted request leaves a count between 1 and 3 |
| PasswordReset.ResolveUser | app/server/appsmith-server/src/main/java/com/appsmith/server/services/ce/UserServiceCEImpl.java:227-229 | an exact email match is preferred whenever one exists, otherwise a match up to case; none is found only when no email matches up to case |
| PasswordReset.ResetMail | app/server/appsmith-server/src/main/java/com/appsmith/server/services/ce/UserServiceCEImpl.java:255-269 | the reset mail goes to the address as requested, and carries only the reset URL with the encrypted token |
| PasswordReset.ForgotPasswordTokenGenerate | app/server/appsmith-server/src/main/java/com/appsmith/server/services/ce/UserServiceCEImpl.java:211-272 | a blank email, a blank origin and an unknown user are each refused with nothing written; only reset records change; no record key is lost; at most one mail is sent |
| PasswordReset.IssueWrites | app/server/appsmith-server/src/main/java/com/appsmith/server/services/ce/UserServiceCEImpl.java:233-270 | an accepted request stores the checked record with the hash of the fresh token, and mails one link |
| PasswordReset.IssueStep | app/server/appsmith-server/src/main/java/com/appsmith/server/services/ce/UserServiceCEImpl.java:233-247 | on each request, either the user's record is replaced by the checked one, or the request is refused with nothing changed |
| PasswordReset.FirstRequest | app/server/appsmith-server/src/main/java/com/appsmith/server/services/ce/UserServiceCEImpl.java:233-247 | a user's first request stores a record with a count of 1 and a window opened now, and leaves the users as they were |
| PasswordReset.CountedRequest | app/server/appsmith-server/src/main/java/com/appsmith/server/services/ce/UserServiceCEImpl.java:280-296 | below the limit, a request adds one to the count and keeps the window's start |
| PasswordReset.RefusedRequest | app/server/appsmith-server/src/main/java/com/appsmith/server/services/ce/UserServiceCEImpl.java:280-296 | at the limit and inside the window, a request is refused with too-many-requests and nothing changes |
| PasswordReset.RequestAfterWindow | app/server/appsmith-server/src/main/java/com/appsmith/server/services/ce/UserServiceCEImpl.java:280-296 | at the limit, a request once 24 hours have passed opens a new window with a count of 1 |
| PasswordReset.RateLimitScenario | app/server/appsmith-server/src/main/java/com/appsmith/server/services/ce/UserServiceCEImpl.java:280-296 | for one user, three requests inside a window are counted 1, 2 and 3 in the window the first opened; the fourth is refused; one after the window restarts at 1 in a new window |
| PasswordReset.ParseValueFromEncryptedToken | app/server/appsmith-server/src/main/java/com/appsmith/server/services/ce/UserServiceCEImpl.java:906-915 | a token fails exactly when it cannot be decrypted, and the failure is an invalid-token error |
| PasswordReset.LinkTokenRoundTrip | app/server/appsmith-server/src/main/java/com/appsmith/server/services/ce/UserServiceCEImpl.java:251-258 | the token of a reset link decodes to exactly the email and token it was built from |
| PasswordReset.VerifyPasswordResetToken | app/server/appsmith-server/src/main/java/com/appsmith/server/services/ce/UserServiceCEImpl.java:307-319 | an undecryptable token is refused; a missing record is an invalid-reset error; otherwise the answer is whether the token matches the stored hash |
| PasswordReset.IssueThenVerify | app/server/appsmith-server/src/main/java/com/appsmith/server/services/ce/UserServiceCEImpl.java:307-319 | the link just issued verifies as true |
| PasswordReset.ResetUser | app/server/appsmith-server/src/main/java/com/appsmith/server/services/ce/UserServiceCEImpl.java:360-365 | the reset user is enabled, is no longer in reset, and has the new password's hash; nothing else about it changes |
| PasswordReset.ResetPasswordAfterForgotPassword | app/server/appsmith-server/src/main/java/com/appsmith/server/services/ce/UserServiceCEImpl.java:330-382 | an undecryptable token, a missing record, a token that does not match, a missing user and a password of disallowed length each give their own error, checked in that order, and errors leave everything unchanged; success needs an allowed password, removes a reset record, and keeps emails distinct |
| PasswordReset.ConsumeWrites | app/server/appsmith-server/src/main/java/com/appsmith/server/services/ce/UserServiceCEImpl.java:360-373 | a successful reset sets the new password on the token's user, enables the user, and deletes that user's record |
| PasswordReset.ConsumeIsSingleUse | app/server/appsmith-server/src/main/java/com/appsmith/server/services/ce/UserServiceCEImpl.java:338-340 | using the same link a second time fails with an invalid-reset error |
| PasswordReset.ConsumeSucceeds | app/server/appsmith-server/src/main/java/com/appsmith/server/services/ce/UserServiceCEImpl.java:338-357 | a reset succeeds exactly when the token decodes, its record exists and matches, the user exists, and the password length is allowed |
| PasswordReset.IssueThenConsume | app/server/appsmith-server/src/main/java/com/appsmith/server/services/ce/UserServiceCEImpl.java:211-382 | the link an issuance mails resets the user's password to any allowed password, enables the user, and leaves no reset record |
| Signup.Grants | app/server/appsmith-server/src/main/java/com/appsmith/server/services/ce/UserServiceCEImpl.java:455-471 | the policies granted are exactly one per permission, all for that user |
| Signup.UserCreate | app/server/appsmith-server/src/main/java/com/appsmith/server/services/ce/UserServiceCEImpl.java:474-508 | the user is stored under the lower-cased email with its own policies plus self-management, and the instance grant for an admin; it goes in the default tenant unless one is set; the insert is refused exactly when the email exists |
| Signup.SecondPiece | app/server/appsmith-server/src/main/java/com/appsmith/server/services/ce/UserServiceCEImpl.java:602 | the domain is the second piece of the Java split on `@`, and the index fault happens exactly when there are fewer than two pieces |
| Signup.SignupIfAllowed | app/server/appsmith-server/src/main/java/com/appsmith/server/services/ce/UserServiceCEImpl.java:584-613 | an admin email always passes. Otherwise: disabled signup refuses; no allowlist, or no usable email, passes as non-admin; under a non-empty allowlist the signup goes ahead exactly when the second piece of the email is listed, is refused as signup-disabled when it is not, and faults when there is no second piece |
| Signup.GateOnSimpleAddress | app/server/appsmith-server/src/main/java/com/appsmith/server/services/ce/UserServiceCEImpl.java:596-606 | for `local@domain` under an allowlist, a non-admin signup passes exactly when the domain is listed |
| Signup.GateFaultsOnTrailingAt | app/server/appsmith-server/src/main/java/com/appsmith/server/services/ce/UserServiceCEImpl.java:596-606 | under an allowlist, an email whose only `@` is its last character makes the domain lookup fault |
| Signup.FindInDefaultTenant | app/server/appsmith-server/src/main/java/com/appsmith/server/services/ce/UserServiceCEImpl.java:151-154 | a user is found only in the default tenant, and then it is the user with that email |
| Signup.WelcomeMail | app/server/appsmith-server/src/main/java/com/appsmith/server/services/ce/UserServiceCEImpl.java:615-621 | the welcome mail goes to the user, with the name and the origin as parameters |
| Signup.Welcome | app/server/appsmith-server/src/main/java/com/appsmith/server/services/ce/UserServiceCEImpl.java:573-581 | the welcome mail is sent when enabled, and its failure never fails the signup |
| Signup.WithEncodedPassword | app/server/appsmith-server/src/main/java/com/appsmith/server/services/ce/UserServiceCEImpl.java:531-536 | only the password changes; OAuth signups keep theirs, and a form signup's stored password matches the password given |
| Signup.CreateUserAndSendEmail | app/server/appsmith-server/src/main/java/com/appsmith/server/services/ce/UserServiceCEImpl.java:521-582 | refused: a form signup without a password, and an email that matches an enabled user up to case. A new email the gate refuses fails with the gate's error. Errors change nothing. Groups and reset records never change, and no workspace is lost |
| Signup.SignupClaimsDisabledUser | app/server/appsmith-server/src/main/java/com/appsmith/server/services/ce/UserServiceCEImpl.java:539-553 | a disabled user with the email is claimed and enabled, whether the signup is a form or an OAuth one: a form signup stores a password that matches the one given, an OAuth signup stores its password as given; the gate is not consulted, no workspace is created, and the welcome mail goes out exactly when welcome mails are enabled |
| Signup.SignupCreatesNewUser | app/server/appsmith-server/src/main/java/com/appsmith/server/services/ce/UserServiceCEImpl.java:555-572 | a new user who passes the gate is stored under the lower-cased email with a new default workspace, and holds the admin grant when the gate said admin |
| Signup.SignupIgnoresDelivery | app/server/appsmith-server/src/main/java/com/appsmith/server/services/ce/UserServiceCEImpl.java:615-631 | whether mail is delivered never changes the signup's outcome |
| Invite.GetEmailParams | app/server/appsmith-server/src/main/java/com/appsmith/server/services/ce/UserServiceCEImpl.java:841-860 | the keys are the inviter's name (its email when the name is empty, so never null), the workspace name and the link, and no others; for an existing user the link opens the workspace's applications |
| Invite.InviteUrlCarriesEmail | app/server/appsmith-server/src/main/java/com/appsmith/server/services/ce/UserServiceCEImpl.java:774-778 | the query of the invitation link parses to the single pair `email`, holding exactly the invited email |
| Invite.InvitedUser | app/server/appsmith-server/src/main/java/com/appsmith/server/services/ce/UserServiceCEImpl.java:758-766 | an invited user is disabled; it has no password, grants or tenant; it carries the invite token |
| Invite.CreateNewUserAndSendInviteEmail | app/server/appsmith-server/src/main/java/com/appsmith/server/services/ce/UserServiceCEImpl.java:756-789 | an existing email is a duplicate. Otherwise one disabled user is appended under the lower-cased email, is an admin exactly when listed, and is mailed one invitation with the signup link |
| Invite.AddedMail | app/server/appsmith-server/src/main/java/com/appsmith/server/services/ce/UserServiceCEImpl.java:715-719 | the added-to-workspace mail goes to the existing user, with the link to the workspace's applications |
| Invite.InviteOne | app/server/appsmith-server/src/main/java/com/appsmith/server/services/ce/UserServiceCEImpl.java:707-787 | one mail is sent per name: an existing user gets the added-to-workspace mail with the applications link, is returned unchanged, and the store is untouched; an unknown name gets a new disabled user and the invitation whose link is the signup page for that email |
| Invite.LowerAll | app/server/appsmith-server/src/main/java/com/appsmith/server/services/ce/UserServiceCEImpl.java:681-684 | every username is lower-cased in place, keeping order and count |
| Invite.InviteEach | app/server/appsmith-server/src/main/java/com/appsmith/server/services/ce/UserServiceCEImpl.java:699-727 | only disabled users are appended; when every mail is delivered the run succeeds, and on success each name gets its user and its mail in order, and existing users are unchanged |
| Invite.InviteEachNeedsDelivery | app/server/appsmith-server/src/main/java/com/appsmith/server/services/ce/UserServiceCEImpl.java:717-722 | a run succeeds only when every mail of it was delivered: one failed mail fails the whole run |
| Invite.NewInviteesDisabled | app/server/appsmith-server/src/main/java/com/appsmith/server/services/ce/UserServiceCEImpl.java:758-762 | a name that had no user before the invitation comes back disabled |
| Invite.AssignableGroup | app/server/appsmith-server/src/main/java/com/appsmith/server/services/ce/UserServiceCEImpl.java:689-692 | the group is used exactly when it exists, may be assigned, and is some workspace's default group |
| Invite.InviteUsers | app/server/appsmith-server/src/main/java/com/appsmith/server/services/ce/UserServiceCEImpl.java:665-754 | the argument checks and the group check refuse in order, with nothing written; success ends with one bulk assignment of exactly the returned users' emails. When the group's workspace is missing, nobody is invited and the bulk assignment is empty. Otherwise the invitation succeeds exactly when every mail is delivered, so a failed mail fails it before any bulk assignment |
| Invite.InviteUsersOnePerName | app/server/appsmith-server/src/main/java/com/appsmith/server/services/ce/UserServiceCEImpl.java:665-754 | with valid arguments and delivered mail: one user per username in order; existing users unchanged; new ones disabled; all assigned in one bulk call |
| Account.SwitchCurrentWorkspace | app/server/appsmith-server/src/main/java/com/appsmith/server/services/ce/UserServiceCEImpl.java:170-200 | refused: a missing id, an unknown user, no memberships, and a workspace the user is not in. The same workspace is a no-op. A member workspace becomes current, and only that user changes |
| Account.SwitchIsIdempotent | app/server/appsmith-server/src/main/java/com/appsmith/server/services/ce/UserServiceCEImpl.java:179-181 | switching again to the workspace just switched to changes nothing |
| Account.SwitchKeepsMemberships | app/server/appsmith-server/src/main/java/com/appsmith/server/services/ce/UserServiceCEImpl.java:183-194 | a switch keeps the memberships and only switches to one of them |
| Account.Get | app/server/appsmith-server/src/main/java/com/appsmith/server/services/ce/UserServiceCEImpl.java:792-795 | listing users is refused as unsupported, whatever the query |
| Navigate.NormaliseUrl | app/client/src/sagas/ActionExecution/NavigateActionSaga.ts:67-72 | the result has a known scheme: a URL that had one is unchanged, and any other gets `https://` in front |
| Navigate.NormaliseIdempotent | app/client/src/sagas/ActionExecution/NavigateActionSaga.ts:69-72 | normalising twice is the same as normalising once |
| Navigate.FindPage | app/client/src/sagas/ActionExecution/NavigateActionSaga.ts:42-47 | a page is found exactly when some page has that exact name, and it is the first such page |
| Navigate.NavigateAction | app/client/src/sagas/ActionExecution/NavigateActionSaga.ts:49-117 | fails exactly when the input is neither URL-shaped nor a page name. URL navigation only assigns or opens normalised URLs. Page data is refreshed exactly for the current page in the same window. A page in a new window opens the page's path for the current mode |
| Navigate.DefaultTargetIsSameWindow | app/client/src/sagas/ActionExecution/NavigateActionSaga.ts:54-58 | a missing target behaves as the same window |
| Navigate.UrlTakesPrecedence | app/client/src/sagas/ActionExecution/NavigateActionSaga.ts:60-79 | an input that is URL-shaped and also a page name navigates to the URL, never to the page |
| Navigate.PageNavigation | app/client/src/sagas/ActionExecution/NavigateActionSaga.ts:79-103 | an internal navigation pushes the page's path for the current mode, and refreshes data exactly for the current page |
| Navigate.ExternalUrl | app/client/src/sagas/ActionExecution/NavigateActionSaga.ts:62-78 | an external URL keeps its known scheme or gets `https://`, and the query string follows the input; the same window, which is the default, assigns the location to that URL, and a new window opens it |

## Left out

- Reactor scheduling and concurrency: every flow is sequential. Invitations handle the usernames in order, so a repeated username finds the user created for its first occurrence.
- Read-modify-write races between concurrent reset requests: each request runs in isolation.
- Logging, analytics events and `logoutAllSessions`: these are fire-and-forget calls with no effect on the result.
- Text.Lower: covers ASCII letters only; Java's `toLowerCase` also maps non-ASCII letters and can change the length.
- Java whitespace covers the ASCII controls and the Unicode space separators only.
- Malformed UTF-8: decoding it gives one replacement character per byte that starts no well-formed sequence. Java's decoder gives one per maximal ill-formed subpart, so the count differs: `E2 82 41` gives one U+FFFD then `A` in Java, and two replacements here. The proofs only decode well-formed encodings.
- `Character.digit` in percent-decoding accepts only ASCII hex digits.
- Quoted values in the form parser are not handled, because the service never formats them.
- Policies are the permission-and-user pairs that `policyUtils` starts from. The lateral expansion of permissions is not modelled.
- Bean validation of the user object is not modelled.
- `WorkspaceService.createDefault` is modelled as adding a workspace record. Its writes to the user document are not modelled.
- `inviteUserToApplication`, `update`, `updateCurrentUser`, `buildUserProfileDTO` and the rest of the service are outside this core.
- The `isValidURL` regular expression is an abstract predicate of the navigation context.
- `getQueryStringfromObject`, `builderURL` and `viewerURL` are abstract too.
- Browser calls are returned as effects.
- The button widget file plays no part in the action.
- `ValidationUtils` is not part of this model. The login password bounds are configuration values.
- `EmailSender` is not part of this model. A mail is an effect, and whether it is delivered is a predicate of the environment. A failed delivery after a save keeps the save, as in the service.
- Reset links do not expire: the service enforces no time limit on a stored token, and neither does the model.
- Users always have an email, so the null-email paths are not modelled.
- Decryption failure is `None` from `env.decrypt`, and every such failure becomes an invalid-parameter error. The service maps only `IllegalStateException` this way (UserServiceCEImpl.java:311 and :334); any other exception from decryption escapes that mapping and is not modelled.
- PasswordReset.ValidLoginPassword: counts Dafny characters, which are Unicode scalar values. Java's `length()` counts UTF-16 code units, so a password with characters outside the Basic Multilingual Plane is measured shorter than Java measures it, and the verdict near the bounds can differ.
- `env.matches` is total, so it is defined on a missing (null) token as well; the real password encoder rejects a null raw password instead.
- The defaults of a new Java `User` object are not modelled; only the fields the operations read or write are.
- Invite.GetEmailParams: requires a workspace for an existing user. The service dereferences the workspace without a check, and every caller passes one.
- Signup.WithEncodedPassword: requires a password for a form signup. Its caller has already refused a form signup without one.
- PasswordReset.ForgotPasswordTokenGenerate: its contract says about the mail only that at most one is sent. `IssueWrites` states the mail's content.
