/** The data the identity services work on: users, password-reset records,
    workspaces and permission groups held in an abstract store; the error kinds
    the services signal; and the environment that stands in for the
    collaborators that are not modelled (password encoder, encryption service,
    random identifiers, clock, mail delivery, session). */
module Identity {
  import opened Wrappers
  import opened Text

  // ------------------------------------------------------------------ users

  /** The ACL permissions granted when a user is created. */
  datatype Permission = ManageUsers | UserManageWorkspaces | ManageInstanceEnv

  /** A policy granting `permission` on a user document to the user named
      `subject`. */
  datatype Policy = Policy(permission: Permission, subject: string)

  datatype LoginSource = Form | OAuth

  /** A user document. Nullable fields are `Option`s; `workspaceIds` is a
      nullable set. `password` holds the encoded password once stored. */
  datatype User = User(
    email: string,
    name: Option<string>,
    password: Option<string>,
    source: LoginSource,
    enabled: bool,
    passwordResetInitiated: bool,
    tenantId: Option<string>,
    workspaceIds: Option<set<string>>,
    currentWorkspaceId: Option<string>,
    policies: set<Policy>,
    inviteToken: Option<string>)

  /** A password-reset record: at most one per email. */
  datatype ResetToken = ResetToken(
    email: string,
    tokenHash: Option<string>,
    requestCount: int,
    firstRequestTime: Option<int>)

  datatype Workspace = Workspace(id: string, name: Option<string>)

  datatype PermissionGroup = PermissionGroup(
    id: string,
    name: Option<string>,
    defaultWorkspaceId: Option<string>)

  /** The persistent collections: users in storage order, reset records
      keyed by email, workspaces and permission groups keyed by id. */
  datatype Store = Store(
    users: seq<User>,
    resetTokens: map<string, ResetToken>,
    workspaces: map<string, Workspace>,
    groups: map<string, PermissionGroup>)

  /** Each reset record is filed under its own email, as a lookup by email
      returns a record with that email. */
  predicate WellKeyed(st: Store) {
    forall e :: e in st.resetTokens ==> st.resetTokens[e].email == e
  }

  // ----------------------------------------------------------------- errors

  /** The field an error message names. */
  datatype Param =
    | EmailParam | OriginParam | TokenParam | UsernamesParam
    | PermissionGroupIdParam | OrganizationIdParam | UserParam | UserGroupParam

  datatype Error =
    | InvalidParameter(param: Param)
    | NoResourceFound(resource: Param)
    | TooManyRequests
    | InvalidPasswordReset
    | GenericBadRequest(param: Param)
    | InvalidPasswordLength
    | InvalidCredentials
    | UserAlreadyExistsSignup
    | SignupDisabled
    | UserDoesntBelongAnyWorkspace
    | UserDoesntBelongToWorkspace
    | UnsupportedOperation
      /** The unique index on the user email rejected an insert. */
    | DuplicateKey
      /** The mail sender reported a delivery failure. */
    | MailFailure
      /** A null dereference or array index fault raised by the runtime. */
    | RuntimeFault
      /** The reactive pipeline completed without emitting a value. */
    | CompletedEmpty

  // ---------------------------------------------------------------- effects

  /** A mail handed to the mail sender; parameter values may be null. */
  datatype Mail = Mail(to: string, subject: string, template: string, params: map<string, Option<string>>)

  datatype Effect =
    | SentMail(mail: Mail)
      /** `bulkAssignToUsers(group, users)`, recorded by group id and the
          users' emails in list order. */
    | BulkAssign(groupId: string, emails: seq<string>)

  /** What an operation leaves behind: the store, the external calls it made
      in order, and the value or error it signals. The store is returned on
      error too, because some failures come after a write. */
  datatype Outcome<T> = Outcome(store: Store, effects: seq<Effect>, result: Result<T, Error>)

  /** A failure before any write or external call. */
  function Reject<T>(st: Store, e: Error): (o: Outcome<T>)
    ensures o.store == st && o.effects == [] && o.result == Err(e)
  {
    Outcome(st, [], Err(e))
  }

  // ------------------------------------------------------------ environment

  /** The instance configuration the services read. */
  datatype Config = Config(
    adminEmails: set<string>,
    signupDisabled: bool,
    allowedDomains: seq<string>,
    oauthAllowedDomains: seq<string>,
    defaultTenantId: string,
    welcomeEmailEnabled: bool,
    defaultOriginHeader: string,
    passwordMinLength: nat,
    passwordMaxLength: nat)

  /** Everything outside the services: `hash` is `PasswordEncoder.encode`,
      `matches` is `PasswordEncoder.matches`, `encrypt`/`decrypt` the
      encryption service (`None` when decryption fails), `now` the clock in
      seconds, `freshToken` the UUID drawn for a reset token,
      `freshWorkspaceId` the id the workspace service gives a new workspace,
      `nonce` the UUID drawn for an invited email, `sessionUser` the signed-in
      user, `mayAssign` whether that user holds ASSIGN_PERMISSION_GROUPS on a
      group id, and `delivers` whether the mail sender accepts a mail. */
  datatype Env = Env(
    config: Config,
    now: int,
    hash: string -> string,
    matches: (Option<string>, Option<string>) -> bool,
    encrypt: string -> string,
    decrypt: string -> Option<string>,
    freshToken: string,
    freshWorkspaceId: string,
    nonce: string -> string,
    sessionUser: User,
    mayAssign: string -> bool,
    delivers: Mail -> bool)

  /** The two laws the services rely on: an encoded password matches its
      plain text, and decryption undoes encryption. */
  ghost predicate Lawful(env: Env) {
    && (forall p :: env.matches(Some(p), Some(env.hash(p))))
    && (forall s :: env.decrypt(env.encrypt(s)) == Some(s))
  }

  // --------------------------------------------------------- user lookups

  /** The index of the first user whose email is exactly `email`, or `|users|`. */
  function EmailIndex(users: seq<User>, email: string): (i: nat)
    ensures i <= |users|
    ensures forall k :: 0 <= k < i ==> users[k].email != email
    ensures i < |users| ==> users[i].email == email
    decreases |users|
  {
    if users == [] then 0
    else if users[0].email == email then 0
    else 1 + EmailIndex(users[1..], email)
  }

  /** The index is determined by its contract: the first match, or the end. */
  lemma EmailIndexIs(users: seq<User>, email: string, j: nat)
    requires j <= |users|
    requires forall k :: 0 <= k < j ==> users[k].email != email
    requires j < |users| ==> users[j].email == email
    ensures EmailIndex(users, email) == j
  {
  }

  /** `findByEmail`: the first user with exactly this email. */
  function FindByEmail(users: seq<User>, email: string): (r: Option<User>)
    ensures r.Some? <==> exists k :: 0 <= k < |users| && users[k].email == email
    ensures r.Some? ==> r.value.email == email && r.value in users
  {
    var i := EmailIndex(users, email);
    if i < |users| then Some(users[i]) else None
  }

  /** The index of the first user whose email equals `email` up to case. */
  function CaseInsensitiveIndex(users: seq<User>, email: string): (i: nat)
    ensures i <= |users|
    ensures forall k :: 0 <= k < i ==> Lower(users[k].email) != Lower(email)
    ensures i < |users| ==> Lower(users[i].email) == Lower(email)
    decreases |users|
  {
    if users == [] then 0
    else if Lower(users[0].email) == Lower(email) then 0
    else 1 + CaseInsensitiveIndex(users[1..], email)
  }

  /** `findByCaseInsensitiveEmail`: the first user whose email equals
      `email` up to (ASCII) case. */
  function FindByCaseInsensitiveEmail(users: seq<User>, email: string): (r: Option<User>)
    ensures r.Some? <==> exists k :: 0 <= k < |users| && Lower(users[k].email) == Lower(email)
    ensures r.Some? ==> Lower(r.value.email) == Lower(email) && r.value in users
  {
    var i := CaseInsensitiveIndex(users, email);
    if i < |users| then Some(users[i]) else None
  }

  /** An exact match is also a match up to case, so the case-insensitive
      lookup finds a user whenever the exact one does. */
  lemma ExactMatchIsCaseInsensitiveMatch(users: seq<User>, email: string)
    ensures FindByEmail(users, email).Some? ==> FindByCaseInsensitiveEmail(users, email).Some?
  {
    if FindByEmail(users, email).Some? {
      var i := EmailIndex(users, email);
      assert Lower(users[i].email) == Lower(email);
    }
  }

  /** Storage enforces one user per email. */
  ghost predicate DistinctEmails(users: seq<User>) {
    forall i, j :: 0 <= i < j < |users| ==> users[i].email != users[j].email
  }

  /** `save` of a user already stored: the stored user with the same email
      is replaced, or the user is appended when there is none. */
  function SaveUser(users: seq<User>, u: User): (r: seq<User>)
    ensures FindByEmail(r, u.email) == Some(u)
    ensures forall e :: e != u.email ==> FindByEmail(r, e) == FindByEmail(users, e)
    ensures DistinctEmails(users) ==> DistinctEmails(r)
  {
    var i := EmailIndex(users, u.email);
    if i < |users| then
      var r := users[i := u];
      assert forall k :: 0 <= k < |r| && k != i ==> r[k] == users[k];
      FindAfterUpdate(users, i, u);
      r
    else
      var r := users + [u];
      FindAfterAppend(users, u);
      r
  }

  lemma FindAfterUpdate(users: seq<User>, i: nat, u: User)
    requires i < |users| && users[i].email == u.email
    requires forall k :: 0 <= k < i ==> users[k].email != u.email
    ensures FindByEmail(users[i := u], u.email) == Some(u)
    ensures forall e :: e != u.email ==> FindByEmail(users[i := u], e) == FindByEmail(users, e)
  {
    var r := users[i := u];
    EmailIndexIs(r, u.email, i);
    forall e | e != u.email
      ensures FindByEmail(r, e) == FindByEmail(users, e)
    {
      var j := EmailIndex(users, e);
      assert j != i;
      if j < |users| {
        assert r[j] == users[j];
      }
      assert forall k :: 0 <= k < |r| ==> (r[k].email == e <==> users[k].email == e);
    }
  }

  lemma FindAfterAppend(users: seq<User>, u: User)
    requires forall k :: 0 <= k < |users| ==> users[k].email != u.email
    ensures FindByEmail(users + [u], u.email) == Some(u)
    ensures forall e :: e != u.email ==> FindByEmail(users + [u], e) == FindByEmail(users, e)
  {
    var r := users + [u];
    EmailIndexIs(r, u.email, |users|);
    forall e | e != u.email
      ensures FindByEmail(r, e) == FindByEmail(users, e)
    {
      assert forall k :: 0 <= k < |users| ==> r[k] == users[k];
    }
  }

  /** `save` of a new user: the unique email index rejects a second user
      with the same email; otherwise the user is appended. */
  function InsertUser(users: seq<User>, u: User): (r: Result<seq<User>, Error>)
    ensures r.Err? <==> FindByEmail(users, u.email).Some?
    ensures r.Err? ==> r.error == DuplicateKey
    ensures r.Ok? ==> r.value == users + [u] && FindByEmail(r.value, u.email) == Some(u)
    ensures r.Ok? ==> forall e :: e != u.email ==> FindByEmail(r.value, e) == FindByEmail(users, e)
  {
    if EmailIndex(users, u.email) < |users| then Err(DuplicateKey)
    else
      FindAfterAppend(users, u);
      Ok(users + [u])
  }

  /** A lookup that succeeds in a prefix of the users gives the same answer
      once more users are appended. */
  lemma FindInExtension(users: seq<User>, more: seq<User>, email: string)
    requires FindByEmail(users, email).Some?
    ensures FindByEmail(users + more, email) == FindByEmail(users, email)
  {
    var i := EmailIndex(users, email);
    var r := users + more;
    assert r[i] == users[i];
    assert forall k :: 0 <= k < i ==> r[k] == users[k];
    EmailIndexIs(r, email, i);
  }
}
