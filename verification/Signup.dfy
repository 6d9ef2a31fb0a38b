/** Creating users: the signup gate (admin emails, the global switch, the
    per-source domain allowlist), `userCreate` with its policy grants and
    tenant default, and the signup flow that either claims a disabled user or
    creates a new one with a default workspace and a welcome mail. */
module Signup {
  import opened Wrappers
  import opened Text
  import opened Identity

  const WelcomeMailSubject := "Welcome to Appsmith"
  const WelcomeMailTemplate := "email/welcomeUserTemplate.html"

  // ---------------------------------------------------------------- policies

  /** One policy per permission, granted to the user named `email`. */
  function Grants(perms: set<Permission>, email: string): (r: set<Policy>)
    ensures forall p :: p in r <==> p.permission in perms && p.subject == email
  {
    set perm | perm in perms :: Policy(perm, email)
  }

  /** `crudUserPolicy`: the user may manage itself and its workspaces. */
  function CrudUserPolicy(email: string): set<Policy> {
    Grants({ManageUsers, UserManageWorkspaces}, email)
  }

  /** `adminUserPolicy`: the user may manage the instance environment. */
  function AdminUserPolicy(email: string): set<Policy> {
    Grants({ManageInstanceEnv}, email)
  }

  // -------------------------------------------------------------- userCreate

  /** `userCreate(user, isAdmin)`: store a new user under its lower-cased
      email with the self-management grants (and the instance grant for an
      admin), in the default tenant unless it already has one. The unique
      email index refuses a second user with that email. */
  function UserCreate(cfg: Config, st: Store, user: User, isAdmin: bool): (o: Outcome<User>)
    ensures o.effects == []
    ensures o.result.Err? <==> FindByEmail(st.users, Lower(user.email)).Some?
    ensures o.result.Err? ==> o == Reject(st, DuplicateKey)
    ensures o.result.Ok? ==>
              var u := o.result.value;
              && u.email == Lower(user.email)
              && FindByEmail(o.store.users, u.email) == Some(u)
              && (forall e :: e != u.email ==> FindByEmail(o.store.users, e) == FindByEmail(st.users, e))
              && o.store.users == st.users + [u]
              && o.store.(users := st.users) == st
    ensures o.result.Ok? ==>
              var u := o.result.value;
              && (forall p :: p in u.policies <==>
                    p in user.policies
                    || (p.subject == u.email
                        && (p.permission == ManageUsers || p.permission == UserManageWorkspaces
                            || (isAdmin && p.permission == ManageInstanceEnv))))
              && (user.tenantId.Some? ==> u.tenantId == user.tenantId)
              && (user.tenantId.None? ==> u.tenantId == Some(cfg.defaultTenantId))
              && u.(email := user.email, policies := user.policies, tenantId := user.tenantId) == user
  {
    var email := Lower(user.email);
    var policies := user.policies + CrudUserPolicy(email)
                    + (if isAdmin then AdminUserPolicy(email) else {});
    var tenant := if user.tenantId.None? then Some(cfg.defaultTenantId) else user.tenantId;
    var u := user.(email := email, policies := policies, tenantId := tenant);
    match InsertUser(st.users, u)
    case Err(e) => Reject(st, e)
    case Ok(users) => Outcome(st.(users := users), [], Ok(u))
  }

  /** The instance grant of a created user comes from the admin flag or was
      already among the user's own policies. */
  lemma UserCreateAdminGrant(cfg: Config, st: Store, user: User, isAdmin: bool)
    requires UserCreate(cfg, st, user, isAdmin).result.Ok?
    ensures var u := UserCreate(cfg, st, user, isAdmin).result.value;
            Policy(ManageInstanceEnv, u.email) in u.policies
            <==> isAdmin || Policy(ManageInstanceEnv, u.email) in user.policies
  {
    var u := UserCreate(cfg, st, user, isAdmin).result.value;
    var admin := Policy(ManageInstanceEnv, u.email);
    assert admin in u.policies <==> admin in user.policies || (admin.subject == u.email && isAdmin);
  }

  // -------------------------------------------------------------- the gate

  /** The allowlist that applies to a login source. */
  function AllowedDomainsFor(cfg: Config, source: LoginSource): seq<string> {
    if source == Form then cfg.allowedDomains else cfg.oauthAllowedDomains
  }

  /** `split("@")[1]`: the second piece, or the index fault when the split
      gives fewer than two pieces. */
  function SecondPiece(email: string): (r: Result<string, Error>)
    ensures var parts := JavaSplit(email, '@');
            r == (if |parts| < 2 then Err(RuntimeFault) else Ok(parts[1]))
  {
    var parts := JavaSplit(email, '@');
    if |parts| < 2 then Err(RuntimeFault) else Ok(parts[1])
  }

  /** `signupIfAllowed` up to the call of `userCreate`: `Ok(isAdmin)` when
      the signup may go ahead. An admin email (compared as given) always may.
      Otherwise the global switch refuses, and so does a non-empty allowlist
      for the user's login source that lacks `split("@")[1]` of an email with
      text and an `@`. */
  function SignupIfAllowed(cfg: Config, user: User): (r: Result<bool, Error>)
    ensures user.email in cfg.adminEmails ==> r == Ok(true)
    ensures r == Ok(true) ==> user.email in cfg.adminEmails
    ensures user.email !in cfg.adminEmails && cfg.signupDisabled ==> r == Err(SignupDisabled)
    ensures user.email !in cfg.adminEmails && !cfg.signupDisabled
            && (|AllowedDomainsFor(cfg, user.source)| == 0 || Blank(user.email) || '@' !in user.email)
            ==> r == Ok(false)
    ensures user.email !in cfg.adminEmails && !cfg.signupDisabled
            && |AllowedDomainsFor(cfg, user.source)| > 0 && HasText(Some(user.email)) && '@' in user.email
            ==> var parts := JavaSplit(user.email, '@');
                && (|parts| < 2 ==> r == Err(RuntimeFault))
                && (|parts| >= 2 ==> (r == Ok(false) <==> parts[1] in AllowedDomainsFor(cfg, user.source)))
                && (|parts| >= 2 && parts[1] !in AllowedDomainsFor(cfg, user.source) ==> r == Err(SignupDisabled))
    ensures r.Err? ==> r.error == SignupDisabled || r.error == RuntimeFault
  {
    if user.email in cfg.adminEmails then Ok(true)
    else if cfg.signupDisabled then Err(SignupDisabled)
    else
      var allowed := AllowedDomainsFor(cfg, user.source);
      if |allowed| > 0 && HasText(Some(user.email)) && '@' in user.email then
        match SecondPiece(user.email)
        case Err(e) => Err(e)
        case Ok(domain) => if domain in allowed then Ok(false) else Err(SignupDisabled)
      else Ok(false)
  }

  /** For an ordinary address `local@domain` under a non-empty allowlist, a
      non-admin signup goes ahead exactly when the domain is listed. */
  lemma GateOnSimpleAddress(cfg: Config, user: User, local: string, domain: string)
    requires user.email == local + "@" + domain
    requires '@' !in local && '@' !in domain && domain != ""
    requires user.email !in cfg.adminEmails && !cfg.signupDisabled
    requires |AllowedDomainsFor(cfg, user.source)| > 0
    ensures SignupIfAllowed(cfg, user).Ok? <==> domain in AllowedDomainsFor(cfg, user.source)
    ensures SignupIfAllowed(cfg, user).Err? ==> SignupIfAllowed(cfg, user) == Err(SignupDisabled)
  {
    SplitSimpleAddress(local, domain);
    assert user.email[|local|] == '@';
    assert !Blank(user.email) by { assert !IsWhitespace(user.email[|local|]); }
  }

  /** An address whose only `@` is its last character splits into one piece,
      so under a non-empty allowlist the domain lookup faults. */
  lemma GateFaultsOnTrailingAt(cfg: Config, user: User, local: string)
    requires user.email == local + "@" && '@' !in local
    requires user.email !in cfg.adminEmails && !cfg.signupDisabled
    requires |AllowedDomainsFor(cfg, user.source)| > 0
    ensures SignupIfAllowed(cfg, user) == Err(RuntimeFault)
  {
    var s := user.email;
    assert s[|local|] == '@';
    assert !Blank(s) by { assert !IsWhitespace(s[|local|]); }
    PiecesOfSeparatorFreePrefix(local, "@", '@');
    assert Pieces("@", '@') == ["", ""];
    assert local + "" == local;
    assert Pieces(s, '@') == [local, ""];
    assert DropTrailingEmpty([local, ""]) == DropTrailingEmpty([local]);
    assert |JavaSplit(s, '@')| <= 1;
  }

  // ------------------------------------------------------------ signup flow

  /** `UserSignupDTO`: the user and, for a new user, the id of the default
      workspace created for it. */
  datatype SignupResult = SignupResult(user: User, defaultWorkspaceId: Option<string>)

  /** `findByEmail` of the service, scoped to the default tenant. */
  function FindInDefaultTenant(cfg: Config, users: seq<User>, email: string): (r: Option<User>)
    ensures r.Some? <==> FindByEmail(users, email).Some? && FindByEmail(users, email).value.tenantId == Some(cfg.defaultTenantId)
    ensures r.Some? ==> r == FindByEmail(users, email)
  {
    match FindByEmail(users, email)
    case None => None
    case Some(u) => if u.tenantId == Some(cfg.defaultTenantId) then Some(u) else None
  }

  /** The welcome mail: the user's name and the origin as the link. */
  function WelcomeMail(user: User, origin: string): (m: Mail)
    ensures m.to == user.email && m.template == WelcomeMailTemplate
    ensures m.params == map["firstName" := user.name, "inviteUrl" := Some(origin)]
  {
    Mail(user.email, WelcomeMailSubject, WelcomeMailTemplate,
         map["firstName" := user.name, "inviteUrl" := Some(origin)])
  }

  /** `sendWelcomeEmail` when enabled: a delivery failure is swallowed, so
      the outcome never depends on it. */
  function Welcome(cfg: Config, st: Store, r: SignupResult, origin: string): (o: Outcome<SignupResult>)
    ensures o.store == st && o.result == Ok(r)
    ensures cfg.welcomeEmailEnabled ==> o.effects == [SentMail(WelcomeMail(r.user, origin))]
    ensures !cfg.welcomeEmailEnabled ==> o.effects == []
  {
    if cfg.welcomeEmailEnabled then Outcome(st, [SentMail(WelcomeMail(r.user, origin))], Ok(r))
    else Outcome(st, [], Ok(r))
  }

  /** The origin used in the welcome mail: the request's, or the default. */
  function OriginOrDefault(cfg: Config, origin: Option<string>): string {
    if NullOrBlank(origin) then cfg.defaultOriginHeader else origin.value
  }

  /** The user as the signup stores it: for a form signup the password is
      replaced by its encoding; OAuth signups keep theirs. */
  function WithEncodedPassword(env: Env, user: User): (u: User)
    requires user.source == Form ==> user.password.Some?
    ensures u.(password := user.password) == user
    ensures user.source != Form ==> u.password == user.password
    ensures Lawful(env) && user.source == Form ==> env.matches(user.password, u.password)
  {
    if user.source == Form then user.(password := Some(env.hash(user.password.value))) else user
  }

  /** `createUserAndSendEmail(user, origin)`. */
  function CreateUserAndSendEmail(env: Env, st: Store, user: User, origin: Option<string>): (o: Outcome<SignupResult>)
    ensures user.source == Form && NullOrBlank(user.password) ==> o == Reject(st, InvalidCredentials)
    ensures (user.source != Form || HasText(user.password))
            && FindByCaseInsensitiveEmail(st.users, user.email).Some?
            && FindByCaseInsensitiveEmail(st.users, user.email).value.enabled
            ==> o == Reject(st, UserAlreadyExistsSignup)
    ensures (user.source != Form || HasText(user.password))
            && FindByCaseInsensitiveEmail(st.users, user.email).None?
            && SignupIfAllowed(env.config, WithEncodedPassword(env, user)).Err?
            ==> o == Reject(st, SignupIfAllowed(env.config, WithEncodedPassword(env, user)).error)
    ensures o.result.Err? && o.result.error != CompletedEmpty ==> o == Reject(st, o.result.error)
    ensures o.result.Ok? && o.result.value.defaultWorkspaceId.None? ==> o.result.value.user.enabled
    ensures o.store.groups == st.groups && o.store.resetTokens == st.resetTokens
    ensures forall e :: e in st.workspaces ==> e in o.store.workspaces
  {
    var originHeader := OriginOrDefault(env.config, origin);
    if user.source == Form && NullOrBlank(user.password) then Reject(st, InvalidCredentials)
    else
      var candidate := WithEncodedPassword(env, user);
      match FindByCaseInsensitiveEmail(st.users, candidate.email)
      case Some(existing) =>
        if existing.enabled then Reject(st, UserAlreadyExistsSignup)
        else
          var claimed := existing.(enabled := true, password := candidate.password);
          Welcome(env.config, st.(users := SaveUser(st.users, claimed)), SignupResult(claimed, None), originHeader)
      case None =>
        match SignupIfAllowed(env.config, candidate)
        case Err(e) => Reject(st, e)
        case Ok(isAdmin) =>
          var created := UserCreate(env.config, st, candidate, isAdmin);
          match created.result
          case Err(e) => Reject(st, e)
          case Ok(saved) =>
            var ws := Workspace(env.freshWorkspaceId, None);
            var st2 := created.store.(workspaces := created.store.workspaces[ws.id := ws]);
            match FindInDefaultTenant(env.config, st2.users, saved.email)
            case None => Outcome(st2, [], Err(CompletedEmpty))
            case Some(reread) => Welcome(env.config, st2, SignupResult(reread, Some(ws.id)), originHeader)
  }

  /** A disabled user is claimed by signing up: it is enabled with the new
      encoded password, keeps everything else, gets no new workspace, and the
      signup gate is not consulted, so this holds even with signup disabled. */
  lemma SignupClaimsDisabledUser(env: Env, st: Store, user: User, origin: Option<string>, existing: User)
    requires user.source != Form || HasText(user.password)
    requires FindByCaseInsensitiveEmail(st.users, user.email) == Some(existing)
    requires !existing.enabled
    ensures var o := CreateUserAndSendEmail(env, st, user, origin);
            var claimed := existing.(enabled := true, password := WithEncodedPassword(env, user).password);
            && o.result == Ok(SignupResult(claimed, None))
            && o.effects == (if env.config.welcomeEmailEnabled
                             then [SentMail(WelcomeMail(claimed, OriginOrDefault(env.config, origin)))] else [])
            && (user.source != Form ==> claimed.password == user.password)
            && (Lawful(env) && user.source == Form ==> env.matches(user.password, claimed.password))
            && FindByEmail(o.store.users, existing.email) == Some(claimed)
            && (forall e :: e != existing.email ==> FindByEmail(o.store.users, e) == FindByEmail(st.users, e))
            && o.store.workspaces == st.workspaces
  {
  }

  /** A new user who passes the gate is stored under the lower-cased email
      with the default workspace's id in the result. Because the lookup before
      it is case-insensitive, the unique index never refuses the insert. */
  lemma SignupCreatesNewUser(env: Env, st: Store, user: User, origin: Option<string>, isAdmin: bool)
    requires user.source != Form || HasText(user.password)
    requires FindByCaseInsensitiveEmail(st.users, user.email).None?
    requires SignupIfAllowed(env.config, WithEncodedPassword(env, user)) == Ok(isAdmin)
    requires user.tenantId.None? || user.tenantId == Some(env.config.defaultTenantId)
    ensures var o := CreateUserAndSendEmail(env, st, user, origin);
            && o.result.Ok?
            && o.result.value.user.email == Lower(user.email)
            && o.result.value.defaultWorkspaceId == Some(env.freshWorkspaceId)
            && FindByEmail(o.store.users, Lower(user.email)) == Some(o.result.value.user)
            && env.freshWorkspaceId in o.store.workspaces
            && var admin := Policy(ManageInstanceEnv, Lower(user.email));
            && (isAdmin ==> admin in o.result.value.user.policies)
            && (admin in o.result.value.user.policies ==> isAdmin || admin in user.policies)
  {
    var candidate := WithEncodedPassword(env, user);
    NewUserPath(env, st, user, origin, isAdmin);
    var created := UserCreate(env.config, st, candidate, isAdmin);
    var saved := created.result.value;
    UserCreateAdminGrant(env.config, st, candidate, isAdmin);
    assert candidate.policies == user.policies && candidate.email == user.email;
    var ws := Workspace(env.freshWorkspaceId, None);
    var st2 := created.store.(workspaces := created.store.workspaces[ws.id := ws]);
    assert FindByEmail(st2.users, saved.email) == Some(saved);
  }

  /** The path a new user takes through the signup: created, then welcomed
      in a store that also holds the new default workspace. */
  lemma NewUserPath(env: Env, st: Store, user: User, origin: Option<string>, isAdmin: bool)
    requires user.source != Form || HasText(user.password)
    requires FindByCaseInsensitiveEmail(st.users, user.email).None?
    requires SignupIfAllowed(env.config, WithEncodedPassword(env, user)) == Ok(isAdmin)
    requires user.tenantId.None? || user.tenantId == Some(env.config.defaultTenantId)
    ensures var created := UserCreate(env.config, st, WithEncodedPassword(env, user), isAdmin);
            && created.result.Ok?
            && var ws := Workspace(env.freshWorkspaceId, None);
            && CreateUserAndSendEmail(env, st, user, origin)
               == Welcome(env.config, created.store.(workspaces := created.store.workspaces[ws.id := ws]),
                          SignupResult(created.result.value, Some(ws.id)), OriginOrDefault(env.config, origin))
  {
    var candidate := WithEncodedPassword(env, user);
    assert FindByEmail(st.users, Lower(candidate.email)).None? by {
      LowerIdempotent(candidate.email);
      assert forall k :: 0 <= k < |st.users| ==> Lower(st.users[k].email) != Lower(candidate.email);
    }
    var created := UserCreate(env.config, st, candidate, isAdmin);
    var saved := created.result.value;
    var ws := Workspace(env.freshWorkspaceId, None);
    var st2 := created.store.(workspaces := created.store.workspaces[ws.id := ws]);
    assert FindByEmail(st2.users, saved.email) == Some(saved);
    assert saved.tenantId == Some(env.config.defaultTenantId);
    assert FindInDefaultTenant(env.config, st2.users, saved.email) == Some(saved);
  }

  /** Mail delivery never changes what a signup does. */
  lemma SignupIgnoresDelivery(env: Env, st: Store, user: User, origin: Option<string>, delivers: Mail -> bool)
    ensures CreateUserAndSendEmail(env.(delivers := delivers), st, user, origin)
            == CreateUserAndSendEmail(env, st, user, origin)
  {
  }
}
