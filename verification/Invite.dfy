/** Inviting users to a workspace through one of its default permission
    groups: existing users are told they were added, unknown emails become
    disabled users with an invitation mail, and the group is then assigned to
    every invited user in one bulk call. */
module Invite {
  import opened Wrappers
  import opened Text
  import opened Identity
  import Signup
  import FormCodec

  const InviteUrlPath := "/user/signup?email="
  const InviteMailSubject := "Invite for Appsmith"
  const InviteMailTemplate := "email/inviteUserCreatorTemplate.html"
  const AddedMailSubject := "Appsmith: You have been added to a new organization"
  const AddedMailTemplate := "email/inviteExistingUserToWorkspaceTemplate.html"
  /** What an invitation link for an existing user has appended, before the
      workspace id. */
  const ApplicationsFragment := "/applications#"

  // ------------------------------------------------------------ mail params

  /** `getEmailParams`: the inviter's name (its email when the name is null
      or empty), the workspace name, and the link, which for an existing user
      opens the workspace's applications. A missing workspace for an existing
      user is a null dereference in the service, so callers pass one. */
  function GetEmailParams(workspace: Option<Workspace>, inviter: Option<User>, inviteUrl: string, isNewUser: bool): (r: map<string, Option<string>>)
    requires isNewUser || workspace.Some?
    ensures "Inviter_First_Name" in r <==> inviter.Some?
    ensures inviter.Some? ==> r["Inviter_First_Name"].Some?
    ensures inviter.Some? && !NullOrEmpty(inviter.value.name) ==> r["Inviter_First_Name"] == inviter.value.name
    ensures inviter.Some? && NullOrEmpty(inviter.value.name) ==> r["Inviter_First_Name"] == Some(inviter.value.email)
    ensures "inviter_org_name" in r <==> workspace.Some?
    ensures workspace.Some? ==> r["inviter_org_name"] == workspace.value.name
    ensures "inviteUrl" in r
    ensures isNewUser ==> r["inviteUrl"] == Some(inviteUrl)
    ensures !isNewUser ==> r["inviteUrl"] == Some(inviteUrl + ApplicationsFragment + workspace.value.id)
    ensures r.Keys <= {"Inviter_First_Name", "inviter_org_name", "inviteUrl"}
  {
    var withInviter: map<string, Option<string>> :=
      match inviter
      case None => map[]
      case Some(u) => map["Inviter_First_Name" := if NullOrEmpty(u.name) then Some(u.email) else u.name];
    var withWorkspace :=
      match workspace
      case None => withInviter
      case Some(w) => withInviter["inviter_org_name" := w.name];
    withWorkspace["inviteUrl" := Some(if isNewUser then inviteUrl else inviteUrl + ApplicationsFragment + workspace.value.id)]
  }

  // ------------------------------------------------------------ invite link

  /** The signup link mailed to a new user: the origin, the signup path, and
      the email escaped by `URLEncoder.encode`. */
  function InviteUrl(origin: string, email: string): string {
    origin + InviteUrlPath + FormCodec.Encode(email)
  }

  /** The signup page reads the email back from the link: the query after the
      `?` parses to the single pair `email` with exactly the invited email. */
  lemma InviteUrlCarriesEmail(origin: string, email: string)
    ensures exists q :: InviteUrl(origin, email) == origin + "/user/signup?" + q
                        && FormCodec.Parse(q) == [FormCodec.Pair("email", Some(email))]
  {
    var p := FormCodec.Pair("email", Some(email));
    var v := FormCodec.Encode(email);
    var q := FormCodec.Piece(p);
    EmailKeyIsSafe();
    assert q == "email=" + v;
    FormCodec.ParsePieceThen(p, "");
    assert q + "" == q;
    assert FormCodec.Parse(q) == [p] + FormCodec.Parse("");
    QueryAfterMark(origin, v);
    assert InviteUrl(origin, email) == origin + "/user/signup?" + q;
  }

  lemma EmailKeyIsSafe()
    ensures FormCodec.Encode("email") == "email"
  {
    var key := "email";
    assert forall i :: 0 <= i < |key| ==> FormCodec.SafeChar(key[i]);
    FormCodec.EncodeSafeText(key);
  }

  lemma QueryAfterMark(origin: string, v: string)
    ensures origin + InviteUrlPath + v == origin + "/user/signup?" + ("email=" + v)
  {
  }

  // ------------------------------------------------------------- new users

  /** A user document for an invited email before it signs up: disabled, no
      name, password, tenant, workspaces or grants, and the invite token. */
  function InvitedUser(email: string, inviteToken: string): (u: User)
    ensures u.email == email && !u.enabled && u.inviteToken == Some(inviteToken)
    ensures u.password.None? && u.policies == {} && u.tenantId.None?
  {
    User(email, None, None, Form, false, false, None, None, None, {}, Some(inviteToken))
  }

  /** The invite token: the role (the group's name, `null` when it has none),
      a colon, and a fresh UUID. */
  function InviteToken(env: Env, role: Option<string>, email: string): string {
    role.GetOr("null") + ":" + env.nonce(email)
  }

  /** `createNewUserAndSendInviteEmail(email, origin, workspace, inviter,
      role)`: create the disabled user through `userCreate` (an admin if its
      lower-cased email is an admin email) and mail it the signup link. */
  function CreateNewUserAndSendInviteEmail(env: Env, st: Store, email: string, origin: string,
                                           workspace: Workspace, inviter: User, role: Option<string>): (o: Outcome<User>)
    ensures FindByEmail(st.users, Lower(email)).Some? ==> o == Reject(st, DuplicateKey)
    ensures FindByEmail(st.users, Lower(email)).None? ==>
              && |o.effects| == 1 && o.effects[0].SentMail?
              && o.effects[0].mail.to == Lower(email)
              && "inviteUrl" in o.effects[0].mail.params
              && o.effects[0].mail.params["inviteUrl"] == Some(InviteUrl(origin, Lower(email)))
              && (o.result.Ok? <==> env.delivers(o.effects[0].mail))
              && (o.result.Err? ==> o.result.error == MailFailure)
              && st.users <= o.store.users && |o.store.users| == |st.users| + 1
              && o.store.users[|st.users|].email == Lower(email)
              && !o.store.users[|st.users|].enabled
    ensures o.result.Ok? ==>
              var u := o.result.value;
              && u == o.store.users[|st.users|]
              && u.email == Lower(email) && !u.enabled
              && u.inviteToken == Some(InviteToken(env, role, Lower(email)))
              && FindByEmail(o.store.users, u.email) == Some(u)
              && (Policy(ManageInstanceEnv, u.email) in u.policies <==> u.email in env.config.adminEmails)
    ensures AppendsDisabled(st.users, o.store.users)
    ensures o.store.(users := st.users) == st
  {
    var lowered := Lower(email);
    LowerIdempotent(email);
    var token := InviteToken(env, role, lowered);
    var isAdmin := lowered in env.config.adminEmails;
    var created := Signup.UserCreate(env.config, st, InvitedUser(lowered, token), isAdmin);
    match created.result
    case Err(e) => Reject(st, e)
    case Ok(u) =>
      InviteeCreated(env.config, st, lowered, token);
      var mail := InviteMail(u, workspace, inviter, origin);
      Outcome(created.store, [SentMail(mail)], if env.delivers(mail) then Ok(u) else Err(MailFailure))
  }

  /** The invitation mail for a user just created, with its signup link. */
  function InviteMail(u: User, workspace: Workspace, inviter: User, origin: string): (m: Mail)
    ensures m.to == u.email && m.template == InviteMailTemplate
    ensures "inviteUrl" in m.params && m.params["inviteUrl"] == Some(InviteUrl(origin, u.email))
  {
    Mail(u.email, InviteMailSubject, InviteMailTemplate,
         GetEmailParams(Some(workspace), Some(inviter), InviteUrl(origin, u.email), true))
  }

  /** `userCreate` of an invited user whose lower-cased email is free: the
      user is appended disabled, and is an admin exactly when listed. */
  lemma InviteeCreated(cfg: Config, st: Store, lowered: string, token: string)
    requires Lower(lowered) == lowered
    requires FindByEmail(st.users, lowered).None?
    ensures var o := Signup.UserCreate(cfg, st, InvitedUser(lowered, token), lowered in cfg.adminEmails);
            && o.result.Ok?
            && var u := o.result.value;
            && o.store.users == st.users + [u] && o.store.(users := st.users) == st
            && u.email == lowered && !u.enabled && u.inviteToken == Some(token)
            && FindByEmail(o.store.users, lowered) == Some(u)
            && (Policy(ManageInstanceEnv, lowered) in u.policies <==> lowered in cfg.adminEmails)
            && AppendsDisabled(st.users, o.store.users)
  {
    var isAdmin := lowered in cfg.adminEmails;
    var user := InvitedUser(lowered, token);
    var o := Signup.UserCreate(cfg, st, user, isAdmin);
    assert o.result.Ok?;
    Signup.UserCreateAdminGrant(cfg, st, user, isAdmin);
    var u := o.result.value;
    assert forall j :: |st.users| <= j < |o.store.users| ==> o.store.users[j] == u;
  }

  // --------------------------------------------------------------- one name

  /** The mail telling an existing user it was added to a workspace. */
  function AddedMail(existing: User, workspace: Workspace, inviter: User, origin: string): (m: Mail)
    ensures m.to == existing.email && m.template == AddedMailTemplate
    ensures "inviteUrl" in m.params && m.params["inviteUrl"] == Some(origin + ApplicationsFragment + workspace.id)
  {
    Mail(existing.email, AddedMailSubject, AddedMailTemplate,
         GetEmailParams(Some(workspace), Some(inviter), origin, false))
  }

  /** One (already lower-cased) name: an existing user is mailed and returned
      unchanged; an unknown one is created and invited. */
  function InviteOne(env: Env, st: Store, name: string, workspace: Workspace, inviter: User,
                     role: Option<string>, origin: string): (o: Outcome<User>)
    requires Lower(name) == name
    ensures |o.effects| == 1 && o.effects[0].SentMail? && o.effects[0].mail.to == name
    ensures o.result.Ok? <==> env.delivers(o.effects[0].mail)
    ensures FindByEmail(st.users, name).Some? ==>
              o.effects[0].mail == AddedMail(FindByEmail(st.users, name).value, workspace, inviter, origin)
    ensures FindByEmail(st.users, name).None? ==>
              "inviteUrl" in o.effects[0].mail.params && o.effects[0].mail.params["inviteUrl"] == Some(InviteUrl(origin, name))
    ensures o.result.Ok? ==> o.result.value.email == name
    ensures o.result.Ok? ==> FindByEmail(o.store.users, name) == Some(o.result.value)
    ensures FindByEmail(st.users, name).Some? ==>
              o.store == st && (o.result.Ok? ==> o.result.value == FindByEmail(st.users, name).value)
    ensures FindByEmail(st.users, name).None? && o.result.Ok? ==> !o.result.value.enabled
    ensures o.result.Err? ==> o.result.error == MailFailure
    ensures AppendsDisabled(st.users, o.store.users)
    ensures forall k :: 0 <= k < |o.effects| ==> o.effects[k].SentMail?
    ensures o.store.(users := st.users) == st
  {
    match FindByEmail(st.users, name)
    case Some(existing) =>
      var mail := AddedMail(existing, workspace, inviter, origin);
      Outcome(st, [SentMail(mail)], if env.delivers(mail) then Ok(existing) else Err(MailFailure))
    case None =>
      var o := CreateNewUserAndSendInviteEmail(env, st, name, origin, workspace, inviter, role);
      assert Lower(name) == name;
      o
  }

  // ----------------------------------------------------------- all names

  /** Names already lower-cased. */
  predicate AllLower(names: seq<string>) {
    forall k :: 0 <= k < |names| ==> Lower(names[k]) == names[k]
  }

  /** The usernames lower-cased one by one. */
  function LowerAll(names: seq<string>): (r: seq<string>)
    ensures |r| == |names| && AllLower(r)
    ensures forall k :: 0 <= k < |names| ==> r[k] == Lower(names[k])
  {
    var r := seq(|names|, k requires 0 <= k < |names| => Lower(names[k]));
    assert forall k :: 0 <= k < |r| ==> Lower(r[k]) == r[k] by {
      forall k | 0 <= k < |r| ensures Lower(r[k]) == r[k] {
        LowerIdempotent(names[k]);
      }
    }
    r
  }

  /** `after` extends `before` with disabled users only. */
  predicate AppendsDisabled(before: seq<User>, after: seq<User>) {
    && before <= after
    && forall j :: |before| <= j < |after| ==> !after[j].enabled
  }

  /** What handling `names` in order produced: one user and one mail per
      name, each user stored under its name in `after`, and a user that was
      stored under its name in `before` returned as it was. */
  predicate Handled(before: seq<User>, after: seq<User>, names: seq<string>, users: seq<User>, effects: seq<Effect>) {
    && |users| == |names| && |effects| == |names|
    && (forall k :: 0 <= k < |names| ==> users[k].email == names[k])
    && (forall k :: 0 <= k < |names| ==> effects[k].SentMail? && effects[k].mail.to == names[k])
    && (forall k :: 0 <= k < |names| ==> FindByEmail(after, names[k]) == Some(users[k]))
    && (forall k :: 0 <= k < |names| && FindByEmail(before, names[k]).Some? ==>
          users[k] == FindByEmail(before, names[k]).value)
  }

  /** The names handled in order, stopping at the first failure. Users are
      only ever appended, and only disabled ones; every mail sent is one of
      the per-name mails; on success each name has its user and its mail. */
  function InviteEach(env: Env, st: Store, names: seq<string>, workspace: Workspace, inviter: User,
                      role: Option<string>, origin: string): (o: Outcome<seq<User>>)
    requires AllLower(names)
    ensures AppendsDisabled(st.users, o.store.users)
    ensures o.store.(users := st.users) == st
    ensures forall k :: 0 <= k < |o.effects| ==> o.effects[k].SentMail?
    ensures o.result.Err? ==> o.result.error == MailFailure
    ensures AllDelivered(env, o.effects) ==> o.result.Ok?
    ensures o.result.Ok? ==> Handled(st.users, o.store.users, names, o.result.value, o.effects)
    decreases |names|
  {
    if names == [] then Outcome(st, [], Ok([]))
    else
      var first := InviteOne(env, st, names[0], workspace, inviter, role, origin);
      match first.result
      case Err(e) => Outcome(first.store, first.effects, Err(e))
      case Ok(u) =>
        AllLowerTail(names);
        var rest := InviteEach(env, first.store, names[1..], workspace, inviter, role, origin);
        AppendsDisabledTrans(st.users, first.store.users, rest.store.users);
        AllDeliveredSplit(env, first.effects, rest.effects);
        AllMailsJoin(first.effects, rest.effects);
        match rest.result
        case Err(e) => Outcome(rest.store, first.effects + rest.effects, Err(e))
        case Ok(us) =>
          HandledStep(st.users, first.store.users, rest.store.users, names, u, us, first.effects, rest.effects);
          Outcome(rest.store, first.effects + rest.effects, Ok([u] + us))
  }

  /** A run succeeds only when every mail of it was delivered: the first
      undelivered mail fails the whole run. */
  lemma {:induction false} InviteEachNeedsDelivery(env: Env, st: Store, names: seq<string>, workspace: Workspace,
                                                   inviter: User, role: Option<string>, origin: string)
    requires AllLower(names)
    ensures var o := InviteEach(env, st, names, workspace, inviter, role, origin);
            o.result.Ok? ==> AllDelivered(env, o.effects)
    decreases |names|
  {
    if names != [] {
      var first := InviteOne(env, st, names[0], workspace, inviter, role, origin);
      if first.result.Ok? {
        AllLowerTail(names);
        var rest := InviteEach(env, first.store, names[1..], workspace, inviter, role, origin);
        InviteEachNeedsDelivery(env, first.store, names[1..], workspace, inviter, role, origin);
        if rest.result.Ok? {
          assert InviteEach(env, st, names, workspace, inviter, role, origin)
                 == Outcome(rest.store, first.effects + rest.effects, Ok([first.result.value] + rest.result.value));
          DeliveredThen(env, first.effects, rest.effects);
        } else {
          assert InviteEach(env, st, names, workspace, inviter, role, origin).result == rest.result;
        }
      }
    }
  }

  /** One delivered mail followed by delivered mails. */
  lemma DeliveredThen(env: Env, a: seq<Effect>, b: seq<Effect>)
    requires |a| == 1 && a[0].SentMail? && env.delivers(a[0].mail)
    requires AllDelivered(env, b)
    ensures AllDelivered(env, a + b)
  {
    forall k | 0 <= k < |a + b| && (a + b)[k].SentMail? ensures env.delivers((a + b)[k].mail) {
      if k > 0 { assert (a + b)[k] == b[k - 1]; }
    }
  }

  lemma AllLowerTail(names: seq<string>)
    requires names != [] && AllLower(names)
    ensures AllLower(names[1..])
  {
    forall k | 0 <= k < |names[1..]| ensures Lower(names[1..][k]) == names[1..][k] {
      assert names[1..][k] == names[k + 1];
    }
  }

  /** Effects that are all mails, followed by more of them, are all mails. */
  lemma AllMailsJoin(a: seq<Effect>, b: seq<Effect>)
    requires forall k :: 0 <= k < |a| ==> a[k].SentMail?
    requires forall k :: 0 <= k < |b| ==> b[k].SentMail?
    ensures forall k :: 0 <= k < |a + b| ==> (a + b)[k].SentMail?
  {
    forall k | 0 <= k < |a + b| ensures (a + b)[k].SentMail? {
      if k >= |a| { assert (a + b)[k] == b[k - |a|]; }
    }
  }

  /** Every mail among the effects was delivered. */
  predicate AllDelivered(env: Env, effects: seq<Effect>) {
    forall k :: 0 <= k < |effects| && effects[k].SentMail? ==> env.delivers(effects[k].mail)
  }

  lemma AllDeliveredSplit(env: Env, a: seq<Effect>, b: seq<Effect>)
    ensures AllDelivered(env, a + b) <==> AllDelivered(env, a) && AllDelivered(env, b)
  {
    if AllDelivered(env, a) && AllDelivered(env, b) {
      forall k | 0 <= k < |a + b| && (a + b)[k].SentMail? ensures env.delivers((a + b)[k].mail) {
        if k < |a| { assert (a + b)[k] == a[k]; } else { assert (a + b)[k] == b[k - |a|]; }
      }
    }
    if AllDelivered(env, a + b) {
      forall k | 0 <= k < |b| && b[k].SentMail? ensures env.delivers(b[k].mail) {
        assert (a + b)[|a| + k] == b[k];
      }
      forall k | 0 <= k < |a| && a[k].SentMail? ensures env.delivers(a[k].mail) {
        assert (a + b)[k] == a[k];
      }
    }
  }

  lemma AppendsDisabledTrans(a: seq<User>, b: seq<User>, c: seq<User>)
    requires AppendsDisabled(a, b) && AppendsDisabled(b, c)
    ensures AppendsDisabled(a, c)
  {
    forall j | |a| <= j < |c| ensures !c[j].enabled {
      if j < |b| { assert c[j] == b[j]; }
    }
  }

  /** One step of `InviteEach`: the first name's outcome in front of the
      rest's. Lookups that succeed in an earlier store give the same answer
      in every later one. */
  lemma HandledStep(before: seq<User>, mid: seq<User>, after: seq<User>, names: seq<string>,
                    u: User, us: seq<User>, firstEffects: seq<Effect>, restEffects: seq<Effect>)
    requires names != []
    requires before <= mid && mid <= after
    requires u.email == names[0] && FindByEmail(mid, names[0]) == Some(u)
    requires FindByEmail(before, names[0]).Some? ==> u == FindByEmail(before, names[0]).value
    requires |firstEffects| == 1 && firstEffects[0].SentMail? && firstEffects[0].mail.to == names[0]
    requires Handled(mid, after, names[1..], us, restEffects)
    ensures Handled(before, after, names, [u] + us, firstEffects + restEffects)
  {
    HandledStepLater(mid, after, names, u, us, firstEffects, restEffects);
    HandledStepEarlier(before, mid, after, names, u, us, restEffects);
  }

  /** The per-name users, mails and final lookups of one step. */
  lemma HandledStepLater(mid: seq<User>, after: seq<User>, names: seq<string>,
                         u: User, us: seq<User>, firstEffects: seq<Effect>, restEffects: seq<Effect>)
    requires names != [] && mid <= after
    requires u.email == names[0] && FindByEmail(mid, names[0]) == Some(u)
    requires |firstEffects| == 1 && firstEffects[0].SentMail? && firstEffects[0].mail.to == names[0]
    requires Handled(mid, after, names[1..], us, restEffects)
    ensures var users := [u] + us;
            var effects := firstEffects + restEffects;
            && |users| == |names| && |effects| == |names|
            && (forall k :: 0 <= k < |names| ==> users[k].email == names[k])
            && (forall k :: 0 <= k < |names| ==> effects[k].SentMail? && effects[k].mail.to == names[k])
            && (forall k :: 0 <= k < |names| ==> FindByEmail(after, names[k]) == Some(users[k]))
  {
    StepMails(names, u, us, firstEffects, restEffects);
    StepLookups(mid, after, names, u, us);
  }

  lemma StepMails(names: seq<string>, u: User, us: seq<User>, firstEffects: seq<Effect>, restEffects: seq<Effect>)
    requires names != [] && u.email == names[0]
    requires |firstEffects| == 1 && firstEffects[0].SentMail? && firstEffects[0].mail.to == names[0]
    requires |us| == |names| - 1 && |restEffects| == |names| - 1
    requires forall j :: 0 <= j < |names| - 1 ==> us[j].email == names[j + 1]
    requires forall j :: 0 <= j < |names| - 1 ==> restEffects[j].SentMail? && restEffects[j].mail.to == names[j + 1]
    ensures var users := [u] + us;
            var effects := firstEffects + restEffects;
            && |users| == |names| && |effects| == |names|
            && (forall k :: 0 <= k < |names| ==> users[k].email == names[k])
            && (forall k :: 0 <= k < |names| ==> effects[k].SentMail? && effects[k].mail.to == names[k])
  {
    var users := [u] + us;
    var effects := firstEffects + restEffects;
    forall k | 0 <= k < |names|
      ensures users[k].email == names[k]
      ensures effects[k].SentMail? && effects[k].mail.to == names[k]
    {
      if k > 0 {
        assert users[k] == us[k - 1] && effects[k] == restEffects[k - 1];
      }
    }
  }

  lemma StepLookups(mid: seq<User>, after: seq<User>, names: seq<string>, u: User, us: seq<User>)
    requires names != [] && mid <= after && |us| == |names| - 1
    requires FindByEmail(mid, names[0]) == Some(u)
    requires forall j :: 0 <= j < |names| - 1 ==> FindByEmail(after, names[j + 1]) == Some(us[j])
    ensures forall k :: 0 <= k < |names| ==> FindByEmail(after, names[k]) == Some(([u] + us)[k])
  {
    var users := [u] + us;
    assert mid + after[|mid|..] == after;
    FindInExtension(mid, after[|mid|..], names[0]);
    forall k | 0 <= k < |names|
      ensures FindByEmail(after, names[k]) == Some(users[k])
    {
      if k > 0 {
        assert users[k] == us[k - 1];
      }
    }
  }

  /** A user that existed before one step is the one returned for its name. */
  lemma HandledStepEarlier(before: seq<User>, mid: seq<User>, after: seq<User>, names: seq<string>,
                           u: User, us: seq<User>, restEffects: seq<Effect>)
    requires names != [] && before <= mid
    requires FindByEmail(before, names[0]).Some? ==> u == FindByEmail(before, names[0]).value
    requires Handled(mid, after, names[1..], us, restEffects)
    ensures forall k :: 0 <= k < |names| && FindByEmail(before, names[k]).Some? ==>
              ([u] + us)[k] == FindByEmail(before, names[k]).value
  {
    var users := [u] + us;
    forall k | 0 <= k < |names| && FindByEmail(before, names[k]).Some?
      ensures users[k] == FindByEmail(before, names[k]).value
    {
      if k > 0 {
        assert names[k] == names[1..][k - 1];
        assert before + mid[|before|..] == mid;
        FindInExtension(before, mid[|before|..], names[k]);
      }
    }
  }

  /** A name that had no user before the invitation comes back as a
      disabled user: it was created by the invitation. */
  lemma NewInviteesDisabled(before: seq<User>, after: seq<User>, names: seq<string>, users: seq<User>, effects: seq<Effect>)
    requires AppendsDisabled(before, after)
    requires Handled(before, after, names, users, effects)
    ensures forall k :: 0 <= k < |names| && FindByEmail(before, names[k]).None? ==> !users[k].enabled
  {
    forall k | 0 <= k < |names| && FindByEmail(before, names[k]).None?
      ensures !users[k].enabled
    {
      var i := EmailIndex(after, names[k]);
      assert after[i] == users[k];
      assert forall j :: 0 <= j < |before| ==> before[j] == after[j];
      assert i >= |before|;
    }
  }

  // ------------------------------------------------------------ inviteUsers

  /** The emails of users, in order. */
  function Emails(users: seq<User>): (r: seq<string>)
    ensures |r| == |users| && forall k :: 0 <= k < |users| ==> r[k] == users[k].email
  {
    seq(|users|, k requires 0 <= k < |users| => users[k].email)
  }

  /** `permissionGroupService.getById(id, ASSIGN_PERMISSION_GROUPS)` kept only
      when the group is some workspace's default group. */
  function AssignableGroup(env: Env, st: Store, id: string): (r: Option<PermissionGroup>)
    ensures r.Some? <==> id in st.groups && env.mayAssign(id) && HasText(st.groups[id].defaultWorkspaceId)
    ensures r.Some? ==> r.value == st.groups[id]
  {
    if id in st.groups && env.mayAssign(id) && HasText(st.groups[id].defaultWorkspaceId) then Some(st.groups[id]) else None
  }

  /** `inviteUsers(usernames, groupId, origin)`: after the argument checks
      (origin, then usernames, then group id) and the group check, every
      lower-cased username is handled in order as the signed-in user, and the
      group is then assigned in one call to all the users handled. When the
      group's workspace does not exist no name is handled and the list is
      empty. */
  function InviteUsers(env: Env, st: Store, usernames: Option<seq<string>>, groupId: Option<string>, origin: Option<string>): (o: Outcome<seq<User>>)
    ensures NullOrBlank(origin) ==> o == Reject(st, InvalidParameter(OriginParam))
    ensures HasText(origin) && (usernames.None? || |usernames.value| == 0) ==>
              o == Reject(st, InvalidParameter(UsernamesParam))
    ensures HasText(origin) && usernames.Some? && |usernames.value| > 0 && !HasText(groupId) ==>
              o == Reject(st, InvalidParameter(PermissionGroupIdParam))
    ensures HasText(origin) && usernames.Some? && |usernames.value| > 0 && HasText(groupId)
            && AssignableGroup(env, st, groupId.value).None? ==>
              o == Reject(st, NoResourceFound(UserGroupParam))
    ensures AppendsDisabled(st.users, o.store.users) && o.store.(users := st.users) == st
    ensures o.result.Err? ==> forall k :: 0 <= k < |o.effects| ==> o.effects[k].SentMail?
    ensures o.result.Ok? ==>
              && |o.effects| >= 1
              && o.effects[|o.effects| - 1] == BulkAssign(groupId.value, Emails(o.result.value))
              && (forall k :: 0 <= k < |o.effects| - 1 ==> o.effects[k].SentMail?)
    ensures o.result.Ok? ==>
              || (o.result.value == [] && o.effects == [BulkAssign(groupId.value, [])])
              || Handled(st.users, o.store.users, LowerAll(usernames.value), o.result.value, o.effects[..|o.effects| - 1])
    ensures HasText(origin) && usernames.Some? && |usernames.value| > 0 && HasText(groupId)
            && AssignableGroup(env, st, groupId.value).Some? ==>
              var wsId := st.groups[groupId.value].defaultWorkspaceId.value;
              && (wsId !in st.workspaces ==> o == Outcome(st, [BulkAssign(groupId.value, [])], Ok([])))
              && (wsId in st.workspaces ==>
                    && (o.result.Ok? <==> AllDelivered(env, o.effects))
                    && (o.result.Ok? ==>
                          Handled(st.users, o.store.users, LowerAll(usernames.value), o.result.value, o.effects[..|o.effects| - 1])))
  {
    if NullOrBlank(origin) then Reject(st, InvalidParameter(OriginParam))
    else if usernames.None? || |usernames.value| == 0 then Reject(st, InvalidParameter(UsernamesParam))
    else if !HasText(groupId) then Reject(st, InvalidParameter(PermissionGroupIdParam))
    else
      match AssignableGroup(env, st, groupId.value)
      case None => Reject(st, NoResourceFound(UserGroupParam))
      case Some(group) => InviteIntoGroup(env, st, LowerAll(usernames.value), groupId.value, group, origin.value)
  }

  /** `inviteUsers` once the group is known: the names handled in the
      group's workspace, then the bulk assignment of the users handled. */
  function InviteIntoGroup(env: Env, st: Store, names: seq<string>, groupId: string, group: PermissionGroup, origin: string): (o: Outcome<seq<User>>)
    requires AllLower(names) && group.defaultWorkspaceId.Some?
    ensures AppendsDisabled(st.users, o.store.users) && o.store.(users := st.users) == st
    ensures o.result.Err? ==> forall k :: 0 <= k < |o.effects| ==> o.effects[k].SentMail?
    ensures o.result.Ok? ==>
              && |o.effects| >= 1
              && o.effects[|o.effects| - 1] == BulkAssign(groupId, Emails(o.result.value))
              && (forall k :: 0 <= k < |o.effects| - 1 ==> o.effects[k].SentMail?)
    ensures o.result.Ok? ==>
              || (o.result.value == [] && o.effects == [BulkAssign(groupId, [])])
              || Handled(st.users, o.store.users, names, o.result.value, o.effects[..|o.effects| - 1])
    ensures group.defaultWorkspaceId.value !in st.workspaces ==> o == Outcome(st, [BulkAssign(groupId, [])], Ok([]))
    ensures group.defaultWorkspaceId.value in st.workspaces ==>
              && (o.result.Ok? <==> AllDelivered(env, o.effects))
              && (o.result.Ok? ==> Handled(st.users, o.store.users, names, o.result.value, o.effects[..|o.effects| - 1]))
  {
    var wsId := group.defaultWorkspaceId.value;
    if wsId !in st.workspaces then Outcome(st, [BulkAssign(groupId, [])], Ok([]))
    else
      var invited := InviteEach(env, st, names, st.workspaces[wsId], env.sessionUser, group.name, origin);
      InviteEachNeedsDelivery(env, st, names, st.workspaces[wsId], env.sessionUser, group.name, origin);
      match invited.result
      case Err(e) => Outcome(invited.store, invited.effects, Err(e))
      case Ok(users) =>
        var bulk := BulkAssign(groupId, Emails(users));
        ThenBulk(invited.effects, bulk);
        AllDeliveredSplit(env, invited.effects, [bulk]);
        Outcome(invited.store, invited.effects + [bulk], Ok(users))
  }

  /** The mails of the invitations followed by the bulk assignment. */
  lemma ThenBulk(mails: seq<Effect>, bulk: Effect)
    ensures var all := mails + [bulk];
            && |all| == |mails| + 1 && all[|mails|] == bulk && all[..|mails|] == mails
            && forall k :: 0 <= k < |mails| ==> all[k] == mails[k]
  {
  }

  /** When the arguments and the group check pass, the group's workspace
      exists and every mail is delivered, the invitation succeeds with one
      user per username, in order, each under the lower-cased username; a
      user that existed is returned as it was, any other is a new disabled
      user; and the single bulk assignment carries exactly their emails. */
  lemma InviteUsersOnePerName(env: Env, st: Store, usernames: seq<string>, groupId: string, origin: string)
    requires HasText(Some(origin)) && |usernames| > 0 && HasText(Some(groupId))
    requires AssignableGroup(env, st, groupId).Some?
    requires st.groups[groupId].defaultWorkspaceId.value in st.workspaces
    requires forall m :: env.delivers(m)
    ensures var o := InviteUsers(env, st, Some(usernames), Some(groupId), Some(origin));
            && o.result.Ok?
            && |o.result.value| == |usernames|
            && (forall k :: 0 <= k < |usernames| ==> o.result.value[k].email == Lower(usernames[k]))
            && (forall k :: 0 <= k < |usernames| && FindByEmail(st.users, Lower(usernames[k])).Some? ==>
                  o.result.value[k] == FindByEmail(st.users, Lower(usernames[k])).value)
            && (forall k :: 0 <= k < |usernames| && FindByEmail(st.users, Lower(usernames[k])).None? ==>
                  !o.result.value[k].enabled)
            && o.effects[|o.effects| - 1] == BulkAssign(groupId, Emails(o.result.value))
  {
    var group := st.groups[groupId];
    var names := LowerAll(usernames);
    var invited := InviteEach(env, st, names, st.workspaces[group.defaultWorkspaceId.value], env.sessionUser, group.name, origin);
    assert AllDelivered(env, invited.effects);
    var users := invited.result.value;
    var bulk := BulkAssign(groupId, Emails(users));
    assert InviteUsers(env, st, Some(usernames), Some(groupId), Some(origin))
           == Outcome(invited.store, invited.effects + [bulk], Ok(users));
    ThenBulk(invited.effects, bulk);
    NewInviteesDisabled(st.users, invited.store.users, names, users, invited.effects);
  }
}
