/** The password-reset protocol of the user service: issuing a rate-limited
    one-time token and mailing a link that carries it, verifying a presented
    token without changing anything, and consuming it exactly once to set a
    new password. */
module PasswordReset {
  import opened Wrappers
  import opened Text
  import opened Identity
  import FormCodec

  /** Issuances allowed per window. */
  const ResetRequestLimit := 3
  /** Length of the rate-limit window, in whole hours. */
  const ResetWindowHours := 24
  const SecondsPerHour := 3600

  const ResetUrlPath := "/user/resetPassword?token="
  const ResetMailSubject := "Appsmith Password Reset"
  const ResetMailTemplate := "email/forgotPasswordTemplate.html"
  /** The template parameter holding the reset link. */
  const ResetUrlParam := "resetUrl"

  /** `Duration.between(from, to).toHours()` for instants in whole seconds:
      the elapsed time in hours, truncated toward zero. */
  function ElapsedHours(from: int, to: int): (h: int)
    ensures to - from >= 0 ==> SecondsPerHour * h <= to - from < SecondsPerHour * (h + 1)
    ensures to - from < 0 ==> SecondsPerHour * (h - 1) < to - from <= SecondsPerHour * h
  {
    var d := to - from;
    if d >= 0 then d / SecondsPerHour else -((-d) / SecondsPerHour)
  }

  /** A full window has passed exactly when 24 * 3600 seconds have. */
  lemma WindowElapsed(from: int, to: int)
    ensures ElapsedHours(from, to) >= ResetWindowHours <==> to - from >= ResetWindowHours * SecondsPerHour
  {
  }

  /** `validateResetLimit`: below the limit the count goes up by one (and the
      window starts now if it had no start); at or above it a new window
      starts once 24 whole hours have passed since the first request of the
      current one, and otherwise the request is refused. A record at the limit
      without a start time makes the runtime fault. */
  function ValidateResetLimit(rec: ResetToken, now: int): (r: Result<ResetToken, Error>)
    ensures r.Err? <==> rec.requestCount >= ResetRequestLimit
                        && (rec.firstRequestTime.None?
                            || now - rec.firstRequestTime.value < ResetWindowHours * SecondsPerHour)
    ensures r.Err? && rec.firstRequestTime.Some? ==> r.error == TooManyRequests
    ensures r.Err? && rec.firstRequestTime.None? ==> r.error == RuntimeFault
    ensures r.Ok? ==> r.value.email == rec.email && r.value.tokenHash == rec.tokenHash
    ensures r.Ok? ==> r.value.firstRequestTime.Some?
    ensures rec.requestCount < ResetRequestLimit ==>
              r.Ok? && r.value.requestCount == rec.requestCount + 1
              && (rec.firstRequestTime.Some? ==> r.value.firstRequestTime == rec.firstRequestTime)
              && (rec.firstRequestTime.None? ==> r.value.firstRequestTime == Some(now))
    ensures rec.requestCount >= ResetRequestLimit && r.Ok? ==>
              r.value.requestCount == 1 && r.value.firstRequestTime == Some(now)
  {
    if rec.requestCount >= ResetRequestLimit then
      match rec.firstRequestTime
      case None => Err(RuntimeFault)
      case Some(first) =>
        WindowElapsed(first, now);
        if ElapsedHours(first, now) >= ResetWindowHours then
          Ok(rec.(requestCount := 1, firstRequestTime := Some(now)))
        else Err(TooManyRequests)
    else
      Ok(rec.(requestCount := rec.requestCount + 1,
              firstRequestTime := if rec.firstRequestTime.None? then Some(now) else rec.firstRequestTime))
  }

  /** A record whose count is not negative keeps its count between 1 and the
      limit after any successful request. */
  lemma CountStaysWithinLimit(rec: ResetToken, now: int)
    requires rec.requestCount >= 0
    ensures ValidateResetLimit(rec, now).Ok? ==>
              1 <= ValidateResetLimit(rec, now).value.requestCount <= ResetRequestLimit
  {
  }

  // ----------------------------------------------------------------- issue

  /** The user a reset is issued for: exact email first, then up to case. */
  function ResolveUser(users: seq<User>, email: string): (r: Option<User>)
    ensures FindByEmail(users, email).Some? ==> r == FindByEmail(users, email)
    ensures r.Some? ==> r.value in users && Lower(r.value.email) == Lower(email)
    ensures r.None? <==> FindByCaseInsensitiveEmail(users, email).None?
  {
    ExactMatchIsCaseInsensitiveMatch(users, email);
    match FindByEmail(users, email)
    case Some(u) => Some(u)
    case None => FindByCaseInsensitiveEmail(users, email)
  }

  /** The record a first request starts from. */
  function FreshRecord(email: string, now: int): ResetToken {
    ResetToken(email, None, 0, Some(now))
  }

  /** The record a request for `email` is checked against: the stored one, or
      a fresh one. */
  function CurrentRecord(st: Store, email: string, now: int): (r: ResetToken)
    ensures WellKeyed(st) ==> r.email == email
    ensures email !in st.resetTokens ==> r.requestCount == 0 && r.firstRequestTime == Some(now)
  {
    if email in st.resetTokens then st.resetTokens[email] else FreshRecord(email, now)
  }

  /** Storing a record under its own email keeps every record under its own. */
  lemma StoreKeepsKeyed(st: Store, email: string, saved: ResetToken)
    requires WellKeyed(st) ==> saved.email == email
    ensures WellKeyed(st) ==> WellKeyed(st.(resetTokens := st.resetTokens[email := saved]))
  {
  }

  /** The form-encoded `email=…&token=…` pair the link carries. */
  function LinkPayload(email: string, token: string): string {
    FormCodec.Format([FormCodec.Pair("email", Some(email)), FormCodec.Pair("token", Some(token))])
  }

  /** The opaque token of the reset link: the encrypted payload. */
  function LinkToken(env: Env, email: string, token: string): string {
    env.encrypt(LinkPayload(email, token))
  }

  /** The link of the reset mail: the page that takes the encrypted token. */
  function ResetUrl(env: Env, baseUrl: string, email: string): string {
    baseUrl + ResetUrlPath + LinkToken(env, email, env.freshToken)
  }

  /** The reset mail for a request: sent to the address as typed in the
      request, with the link for the stored record's email. */
  function ResetMail(env: Env, requested: string, baseUrl: string, email: string): (m: Mail)
    ensures m.to == requested && m.template == ResetMailTemplate
    ensures m.params == map[ResetUrlParam := Some(ResetUrl(env, baseUrl, email))]
  {
    Mail(requested, ResetMailSubject, ResetMailTemplate, map[ResetUrlParam := Some(ResetUrl(env, baseUrl, email))])
  }

  /** `forgotPasswordTokenGenerate(email, baseUrl)`. */
  function ForgotPasswordTokenGenerate(env: Env, st: Store, email: Option<string>, baseUrl: Option<string>): (o: Outcome<bool>)
    ensures NullOrBlank(email) ==> o == Reject(st, InvalidParameter(EmailParam))
    ensures HasText(email) && NullOrBlank(baseUrl) ==> o == Reject(st, InvalidParameter(OriginParam))
    ensures HasText(email) && HasText(baseUrl) && ResolveUser(st.users, email.value).None? ==>
              o == Reject(st, NoResourceFound(UserParam))
    ensures o.result.Err? && o.result.error != MailFailure ==> o.store == st && o.effects == []
    ensures o.store.users == st.users && o.store.workspaces == st.workspaces && o.store.groups == st.groups
    ensures o.store.resetTokens.Keys >= st.resetTokens.Keys
    ensures WellKeyed(st) ==> WellKeyed(o.store)
    ensures |o.effects| <= 1
  {
    if NullOrBlank(email) then Reject(st, InvalidParameter(EmailParam))
    else if NullOrBlank(baseUrl) then Reject(st, InvalidParameter(OriginParam))
    else
      match ResolveUser(st.users, email.value)
      case None => Reject(st, NoResourceFound(UserParam))
      case Some(user) =>
        match ValidateResetLimit(CurrentRecord(st, user.email, env.now), env.now)
        case Err(e) => Reject(st, e)
        case Ok(rec) =>
          var saved := rec.(tokenHash := Some(env.hash(env.freshToken)));
          StoreKeepsKeyed(st, user.email, saved);
          var st' := st.(resetTokens := st.resetTokens[user.email := saved]);
          var mail := ResetMail(env, email.value, baseUrl.value, saved.email);
          Outcome(st', [SentMail(mail)], if env.delivers(mail) then Ok(true) else Err(MailFailure))
  }

  /** What a request that passes the checks leaves behind: the record for the
      resolved user's email holds the checked count and window and the hash of
      the fresh token (never the token itself); exactly one mail goes out;
      and the record is written even when the mail then fails. */
  lemma IssueWrites(env: Env, st: Store, email: string, baseUrl: string, user: User, rec: ResetToken)
    requires WellKeyed(st)
    requires HasText(Some(email)) && HasText(Some(baseUrl))
    requires ResolveUser(st.users, email) == Some(user)
    requires ValidateResetLimit(CurrentRecord(st, user.email, env.now), env.now) == Ok(rec)
    ensures var o := ForgotPasswordTokenGenerate(env, st, Some(email), Some(baseUrl));
            && o.store.resetTokens == st.resetTokens[user.email := rec.(tokenHash := Some(env.hash(env.freshToken)))]
            && o.effects == [SentMail(ResetMail(env, email, baseUrl, user.email))]
            && (o.result.Ok? <==> env.delivers(ResetMail(env, email, baseUrl, user.email)))
            && (o.result.Err? ==> o.result.error == MailFailure)
  {
    assert CurrentRecord(st, user.email, env.now).email == user.email;
    var saved := rec.(tokenHash := Some(env.hash(env.freshToken)));
    assert saved.email == user.email;
    var mail := ResetMail(env, email, baseUrl, user.email);
    var st' := st.(resetTokens := st.resetTokens[user.email := saved]);
    assert ForgotPasswordTokenGenerate(env, st, Some(email), Some(baseUrl))
           == Outcome(st', [SentMail(mail)], if env.delivers(mail) then Ok(true) else Err(MailFailure));
  }

  // ------------------------------------------------------------ the token

  /** The email and token a reset link carries; either may be missing. */
  datatype EmailToken = EmailToken(email: Option<string>, token: Option<string>)

  /** `parseValueFromEncryptedToken`: decrypt, parse the form-encoded pairs,
      take the last value of `email` and of `token`. */
  function ParseValueFromEncryptedToken(env: Env, encrypted: string): (r: Result<EmailToken, Error>)
    ensures r.Err? <==> env.decrypt(encrypted).None?
    ensures r.Err? ==> r.error == InvalidParameter(TokenParam)
  {
    match env.decrypt(encrypted)
    case None => Err(InvalidParameter(TokenParam))
    case Some(plain) =>
      var ps := FormCodec.Parse(plain);
      Ok(EmailToken(FormCodec.Lookup(ps, "email"), FormCodec.Lookup(ps, "token")))
  }

  /** The link round trip: the token of a reset link decodes to exactly the
      email and token that were put in, whatever characters they hold. */
  lemma LinkTokenRoundTrip(env: Env, email: string, token: string)
    requires Lawful(env)
    ensures ParseValueFromEncryptedToken(env, LinkToken(env, email, token))
            == Ok(EmailToken(Some(email), Some(token)))
  {
    var ps := [FormCodec.Pair("email", Some(email)), FormCodec.Pair("token", Some(token))];
    var plain := LinkPayload(email, token);
    assert env.decrypt(env.encrypt(plain)) == Some(plain);
    LinkPayloadParses(email, token);
    LookupLinkPairs(email, token);
    assert ParseValueFromEncryptedToken(env, LinkToken(env, email, token))
           == Ok(EmailToken(FormCodec.Lookup(ps, "email"), FormCodec.Lookup(ps, "token")));
  }

  /** The payload parses back to its two pairs. */
  lemma LinkPayloadParses(email: string, token: string)
    ensures FormCodec.Parse(LinkPayload(email, token))
            == [FormCodec.Pair("email", Some(email)), FormCodec.Pair("token", Some(token))]
  {
    var ps := [FormCodec.Pair("email", Some(email)), FormCodec.Pair("token", Some(token))];
    assert FormCodec.NamedPairs(ps) by { assert ps[0].name != "" && ps[1].name != ""; }
    FormCodec.ParseFormat(ps);
  }

  lemma LookupLinkPairs(email: string, token: string)
    ensures var ps := [FormCodec.Pair("email", Some(email)), FormCodec.Pair("token", Some(token))];
            FormCodec.Lookup(ps, "email") == Some(email) && FormCodec.Lookup(ps, "token") == Some(token)
  {
    var ps := [FormCodec.Pair("email", Some(email)), FormCodec.Pair("token", Some(token))];
    assert ps[..1] == [ps[0]];
    assert "token" != "email" by { assert "token"[0] != "email"[0]; }
  }

  // ---------------------------------------------------------------- verify

  /** The record a decoded token points at, if any. */
  function RecordFor(st: Store, t: EmailToken): Option<ResetToken> {
    if t.email.Some? && t.email.value in st.resetTokens then Some(st.resetTokens[t.email.value]) else None
  }

  /** `verifyPasswordResetToken`: whether the presented token matches the
      stored hash. It returns no store: verification cannot change anything. */
  function VerifyPasswordResetToken(env: Env, st: Store, encrypted: string): (r: Result<bool, Error>)
    ensures env.decrypt(encrypted).None? ==> r == Err(InvalidParameter(TokenParam))
    ensures env.decrypt(encrypted).Some? ==>
              var t := ParseValueFromEncryptedToken(env, encrypted).value;
              && (RecordFor(st, t).None? ==> r == Err(InvalidPasswordReset))
              && (RecordFor(st, t).Some? ==> r == Ok(env.matches(t.token, RecordFor(st, t).value.tokenHash)))
  {
    var t :- ParseValueFromEncryptedToken(env, encrypted);
    match RecordFor(st, t)
    case None => Err(InvalidPasswordReset)
    case Some(rec) => Ok(env.matches(t.token, rec.tokenHash))
  }

  /** A link just issued verifies: the token it carries matches the hash the
      issuance stored, whether or not the mail went out. */
  lemma IssueThenVerify(env: Env, st: Store, email: string, baseUrl: string, user: User, rec: ResetToken)
    requires Lawful(env) && WellKeyed(st)
    requires HasText(Some(email)) && HasText(Some(baseUrl))
    requires ResolveUser(st.users, email) == Some(user)
    requires ValidateResetLimit(CurrentRecord(st, user.email, env.now), env.now) == Ok(rec)
    ensures var o := ForgotPasswordTokenGenerate(env, st, Some(email), Some(baseUrl));
            VerifyPasswordResetToken(env, o.store, LinkToken(env, user.email, env.freshToken)) == Ok(true)
  {
    var o := ForgotPasswordTokenGenerate(env, st, Some(email), Some(baseUrl));
    var tok := LinkToken(env, user.email, env.freshToken);
    IssueWrites(env, st, email, baseUrl, user, rec);
    LinkTokenRoundTrip(env, user.email, env.freshToken);
    var t := EmailToken(Some(user.email), Some(env.freshToken));
    assert env.decrypt(tok).Some? && ParseValueFromEncryptedToken(env, tok).value == t;
    var saved := rec.(tokenHash := Some(env.hash(env.freshToken)));
    assert RecordFor(o.store, t) == Some(saved);
    assert env.matches(Some(env.freshToken), Some(env.hash(env.freshToken)));
  }

  // --------------------------------------------------------------- consume

  /** `ValidationUtils.validateLoginPassword`: a non-null password whose
      length is within the configured bounds. */
  predicate ValidLoginPassword(cfg: Config, password: Option<string>) {
    password.Some? && cfg.passwordMinLength <= |password.value| <= cfg.passwordMaxLength
  }

  /** The user after a reset: enabled, no reset pending, new password hash. */
  function ResetUser(env: Env, u: User, password: string): (r: User)
    ensures r.email == u.email && r.enabled && !r.passwordResetInitiated
    ensures r.password == Some(env.hash(password))
    ensures r.(enabled := u.enabled, passwordResetInitiated := u.passwordResetInitiated, password := u.password) == u
  {
    u.(passwordResetInitiated := false, password := Some(env.hash(password)), enabled := true)
  }

  /** `resetPasswordAfterForgotPassword(token, newPassword)`; the checks run
      in the order: token decodes, a record exists, the token matches, the
      user exists, the new password has an allowed length. */
  function ResetPasswordAfterForgotPassword(env: Env, st: Store, encrypted: string, newPassword: Option<string>): (o: Outcome<bool>)
    ensures o.effects == []
    ensures o.result.Err? ==> o.store == st
    ensures env.decrypt(encrypted).None? ==> o.result == Err(InvalidParameter(TokenParam))
    ensures env.decrypt(encrypted).Some? ==>
              var t := ParseValueFromEncryptedToken(env, encrypted).value;
              && (RecordFor(st, t).None? ==> o.result == Err(InvalidPasswordReset))
              && (RecordFor(st, t).Some? && !env.matches(t.token, RecordFor(st, t).value.tokenHash) ==>
                    o.result == Err(GenericBadRequest(TokenParam)))
              && (RecordFor(st, t).Some? && env.matches(t.token, RecordFor(st, t).value.tokenHash)
                  && FindByEmail(st.users, t.email.value).None? ==>
                    o.result == Err(NoResourceFound(UserParam)))
              && (RecordFor(st, t).Some? && env.matches(t.token, RecordFor(st, t).value.tokenHash)
                  && FindByEmail(st.users, t.email.value).Some? && !ValidLoginPassword(env.config, newPassword) ==>
                    o.result == Err(InvalidPasswordLength))
    ensures o.result.Ok? ==> ValidLoginPassword(env.config, newPassword)
    ensures o.result.Ok? ==> |o.store.resetTokens| < |st.resetTokens|
    ensures WellKeyed(st) ==> WellKeyed(o.store)
    ensures DistinctEmails(st.users) ==> DistinctEmails(o.store.users)
    ensures o.store.workspaces == st.workspaces && o.store.groups == st.groups
  {
    match ParseValueFromEncryptedToken(env, encrypted)
    case Err(e) => Reject(st, e)
    case Ok(t) =>
    match RecordFor(st, t)
    case None => Reject(st, InvalidPasswordReset)
    case Some(rec) =>
      if !env.matches(t.token, rec.tokenHash) then Reject(st, GenericBadRequest(TokenParam))
      else
        match FindByEmail(st.users, t.email.value)
        case None => Reject(st, NoResourceFound(UserParam))
        case Some(u) =>
          if !ValidLoginPassword(env.config, newPassword) then Reject(st, InvalidPasswordLength)
          else
            var updated := ResetUser(env, u, newPassword.value);
            // The record is looked up once more before it is deleted; it
            // cannot have gone in a sequential run.
            if updated.email !in st.resetTokens then Reject(st, NoResourceFound(TokenParam))
            else
              Outcome(st.(users := SaveUser(st.users, updated),
                          resetTokens := st.resetTokens - {updated.email}),
                      [], Ok(true))
  }

  /** A successful reset sets the new password on the token's user, enables
      the account and clears the pending flag, deletes that user's reset
      record, and touches no other user and no other record. */
  lemma ConsumeWrites(env: Env, st: Store, encrypted: string, newPassword: Option<string>)
    requires ResetPasswordAfterForgotPassword(env, st, encrypted, newPassword).result.Ok?
    ensures var o := ResetPasswordAfterForgotPassword(env, st, encrypted, newPassword);
            var t := ParseValueFromEncryptedToken(env, encrypted).value;
            && t.email.Some?
            && var e := t.email.value;
            && FindByEmail(o.store.users, e) == Some(ResetUser(env, FindByEmail(st.users, e).value, newPassword.value))
            && (forall other :: other != e ==> FindByEmail(o.store.users, other) == FindByEmail(st.users, other))
            && o.store.resetTokens == st.resetTokens - {e}
  {
  }

  /** A link used once cannot be used again: its record is gone, so a second
      attempt with the same token is refused as an invalid reset. */
  lemma ConsumeIsSingleUse(env: Env, st: Store, encrypted: string, newPassword: Option<string>, again: Option<string>)
    requires ResetPasswordAfterForgotPassword(env, st, encrypted, newPassword).result.Ok?
    ensures var o := ResetPasswordAfterForgotPassword(env, st, encrypted, newPassword);
            ResetPasswordAfterForgotPassword(env, o.store, encrypted, again).result == Err(InvalidPasswordReset)
            && VerifyPasswordResetToken(env, o.store, encrypted) == Err(InvalidPasswordReset)
  {
    ConsumeWrites(env, st, encrypted, newPassword);
  }

  /** A reset succeeds exactly when every check passes: the token decodes
      to an email with a record whose hash the token matches, that email
      names a user, and the new password has an allowed length. */
  lemma ConsumeSucceeds(env: Env, st: Store, encrypted: string, newPassword: Option<string>)
    ensures ResetPasswordAfterForgotPassword(env, st, encrypted, newPassword).result.Ok?
            <==> && ParseValueFromEncryptedToken(env, encrypted).Ok?
                 && var t := ParseValueFromEncryptedToken(env, encrypted).value;
                 && RecordFor(st, t).Some?
                 && env.matches(t.token, RecordFor(st, t).value.tokenHash)
                 && FindByEmail(st.users, t.email.value).Some?
                 && ValidLoginPassword(env.config, newPassword)
  {
  }

  /** The happy path end to end: after an issuance, the link it mailed resets
      the password of the user it was issued for to any password of allowed
      length. */
  lemma IssueThenConsume(env: Env, st: Store, email: string, baseUrl: string, user: User, rec: ResetToken, newPassword: string)
    requires Lawful(env) && WellKeyed(st)
    requires HasText(Some(email)) && HasText(Some(baseUrl))
    requires ResolveUser(st.users, email) == Some(user)
    requires ValidateResetLimit(CurrentRecord(st, user.email, env.now), env.now) == Ok(rec)
    requires ValidLoginPassword(env.config, Some(newPassword))
    ensures var o := ForgotPasswordTokenGenerate(env, st, Some(email), Some(baseUrl));
            var o2 := ResetPasswordAfterForgotPassword(env, o.store, LinkToken(env, user.email, env.freshToken), Some(newPassword));
            && o2.result == Ok(true)
            && FindByEmail(o2.store.users, user.email).Some?
            && FindByEmail(o2.store.users, user.email).value.password == Some(env.hash(newPassword))
            && FindByEmail(o2.store.users, user.email).value.enabled
            && user.email !in o2.store.resetTokens
  {
    var o := ForgotPasswordTokenGenerate(env, st, Some(email), Some(baseUrl));
    var tok := LinkToken(env, user.email, env.freshToken);
    IssueWrites(env, st, email, baseUrl, user, rec);
    LinkTokenRoundTrip(env, user.email, env.freshToken);
    var t := EmailToken(Some(user.email), Some(env.freshToken));
    assert ParseValueFromEncryptedToken(env, tok) == Ok(t);
    var saved := rec.(tokenHash := Some(env.hash(env.freshToken)));
    assert RecordFor(o.store, t) == Some(saved);
    assert env.matches(Some(env.freshToken), Some(env.hash(env.freshToken)));
    assert FindByEmail(st.users, user.email).Some? by {
      var k :| 0 <= k < |st.users| && st.users[k] == user;
    }
    assert o.store.users == st.users;
    ConsumeSucceeds(env, o.store, tok, Some(newPassword));
    ConsumeWrites(env, o.store, tok, Some(newPassword));
  }

  /** One request for a user that resolves: the limit check decides whether
      the user's record is replaced by the checked one with the new hash, or
      the request is refused with nothing changed. */
  lemma IssueStep(env: Env, st: Store, email: string, baseUrl: string, user: User)
    requires WellKeyed(st)
    requires HasText(Some(email)) && HasText(Some(baseUrl))
    requires ResolveUser(st.users, email) == Some(user)
    ensures var o := ForgotPasswordTokenGenerate(env, st, Some(email), Some(baseUrl));
            var v := ValidateResetLimit(CurrentRecord(st, user.email, env.now), env.now);
            && o.store.users == st.users
            && (v.Ok? ==> o.store.resetTokens == st.resetTokens[user.email := v.value.(tokenHash := Some(env.hash(env.freshToken)))])
            && (v.Err? ==> o == Reject(st, v.error))
  {
  }

  /** The stored record for `email` has counted `n` requests in the window
      that opened at `first`. */
  predicate RecordIs(st: Store, email: string, n: int, first: int) {
    email in st.resetTokens && st.resetTokens[email].requestCount == n
    && st.resetTokens[email].firstRequestTime == Some(first)
  }

  /** A user's first request opens a window now with a count of 1. */
  lemma FirstRequest(env: Env, st: Store, email: string, baseUrl: string, user: User)
    requires WellKeyed(st)
    requires HasText(Some(email)) && HasText(Some(baseUrl))
    requires ResolveUser(st.users, email) == Some(user)
    requires user.email !in st.resetTokens
    ensures var o := ForgotPasswordTokenGenerate(env, st, Some(email), Some(baseUrl));
            o.store.users == st.users && WellKeyed(o.store) && RecordIs(o.store, user.email, 1, env.now)
  {
    var rec := CurrentRecord(st, user.email, env.now);
    assert rec.requestCount == 0 && rec.firstRequestTime == Some(env.now);
    var v := ValidateResetLimit(rec, env.now);
    assert v.Ok? && v.value.requestCount == 1 && v.value.firstRequestTime == Some(env.now);
    IssueStep(env, st, email, baseUrl, user);
  }

  /** Below the limit a request is counted in the same window. */
  lemma CountedRequest(env: Env, st: Store, email: string, baseUrl: string, user: User, n: int, first: int)
    requires WellKeyed(st)
    requires HasText(Some(email)) && HasText(Some(baseUrl))
    requires ResolveUser(st.users, email) == Some(user)
    requires RecordIs(st, user.email, n, first) && n < ResetRequestLimit
    ensures var o := ForgotPasswordTokenGenerate(env, st, Some(email), Some(baseUrl));
            o.store.users == st.users && WellKeyed(o.store) && RecordIs(o.store, user.email, n + 1, first)
  {
    IssueStep(env, st, email, baseUrl, user);
  }

  /** At the limit, a request inside the window is refused. */
  lemma RefusedRequest(env: Env, st: Store, email: string, baseUrl: string, user: User, first: int)
    requires WellKeyed(st)
    requires HasText(Some(email)) && HasText(Some(baseUrl))
    requires ResolveUser(st.users, email) == Some(user)
    requires RecordIs(st, user.email, ResetRequestLimit, first)
    requires env.now - first < ResetWindowHours * SecondsPerHour
    ensures ForgotPasswordTokenGenerate(env, st, Some(email), Some(baseUrl)) == Reject(st, TooManyRequests)
  {
    IssueStep(env, st, email, baseUrl, user);
  }

  /** At the limit, a request once the window has passed opens a new one. */
  lemma RequestAfterWindow(env: Env, st: Store, email: string, baseUrl: string, user: User, first: int)
    requires WellKeyed(st)
    requires HasText(Some(email)) && HasText(Some(baseUrl))
    requires ResolveUser(st.users, email) == Some(user)
    requires RecordIs(st, user.email, ResetRequestLimit, first)
    requires env.now - first >= ResetWindowHours * SecondsPerHour
    ensures var o := ForgotPasswordTokenGenerate(env, st, Some(email), Some(baseUrl));
            RecordIs(o.store, user.email, 1, env.now)
  {
    IssueStep(env, st, email, baseUrl, user);
  }

  /** The rate limit over five requests for the same user: the first three
      are counted 1, 2, 3 whenever they come; a fourth within 24 hours of the
      first is refused and changes nothing; a request 24 hours or more after
      the first opens a new window with a count of 1. Mail failures do not
      give requests back. */
  lemma RateLimitScenario(env: Env, st: Store, email: string, baseUrl: string, user: User,
                          t1: int, t2: int, t3: int, t4: int, t5: int)
    requires WellKeyed(st)
    requires HasText(Some(email)) && HasText(Some(baseUrl))
    requires ResolveUser(st.users, email) == Some(user)
    requires user.email !in st.resetTokens
    requires t4 - t1 < ResetWindowHours * SecondsPerHour <= t5 - t1
    ensures var o1 := ForgotPasswordTokenGenerate(env.(now := t1), st, Some(email), Some(baseUrl));
            var o2 := ForgotPasswordTokenGenerate(env.(now := t2), o1.store, Some(email), Some(baseUrl));
            var o3 := ForgotPasswordTokenGenerate(env.(now := t3), o2.store, Some(email), Some(baseUrl));
            var o4 := ForgotPasswordTokenGenerate(env.(now := t4), o3.store, Some(email), Some(baseUrl));
            var o5 := ForgotPasswordTokenGenerate(env.(now := t5), o4.store, Some(email), Some(baseUrl));
            && RecordIs(o1.store, user.email, 1, t1)
            && RecordIs(o2.store, user.email, 2, t1)
            && RecordIs(o3.store, user.email, 3, t1)
            && o4 == Reject(o3.store, TooManyRequests)
            && RecordIs(o5.store, user.email, 1, t5)
  {
    var o1 := ForgotPasswordTokenGenerate(env.(now := t1), st, Some(email), Some(baseUrl));
    FirstRequest(env.(now := t1), st, email, baseUrl, user);
    var o2 := ForgotPasswordTokenGenerate(env.(now := t2), o1.store, Some(email), Some(baseUrl));
    CountedRequest(env.(now := t2), o1.store, email, baseUrl, user, 1, t1);
    var o3 := ForgotPasswordTokenGenerate(env.(now := t3), o2.store, Some(email), Some(baseUrl));
    CountedRequest(env.(now := t3), o2.store, email, baseUrl, user, 2, t1);
    var o4 := ForgotPasswordTokenGenerate(env.(now := t4), o3.store, Some(email), Some(baseUrl));
    RefusedRequest(env.(now := t4), o3.store, email, baseUrl, user, t1);
    RequestAfterWindow(env.(now := t5), o4.store, email, baseUrl, user, t1);
  }
}
