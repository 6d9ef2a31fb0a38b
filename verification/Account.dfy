/** The signed-in user's own account: switching the workspace the user sees
    first, and the refusal to list users. */
module Account {
  import opened Wrappers
  import opened Text
  import opened Identity

  /** `switchCurrentWorkspace(workspaceId)` for the signed-in user. */
  function SwitchCurrentWorkspace(env: Env, st: Store, workspaceId: Option<string>): (o: Outcome<User>)
    ensures o.effects == []
    ensures o.result.Err? ==> o.store == st
    ensures o.store.(users := st.users) == st
    ensures NullOrEmpty(workspaceId) ==> o.result == Err(InvalidParameter(OrganizationIdParam))
    ensures !NullOrEmpty(workspaceId) && FindByEmail(st.users, env.sessionUser.email).None? ==>
              o.result == Err(CompletedEmpty)
    ensures !NullOrEmpty(workspaceId) && FindByEmail(st.users, env.sessionUser.email).Some? ==>
              var u := FindByEmail(st.users, env.sessionUser.email).value;
              var id := workspaceId.value;
              && (u.currentWorkspaceId.None? ==> o.result == Err(RuntimeFault))
              && (u.currentWorkspaceId == Some(id) ==> o.result == Ok(u) && o.store == st)
              && (u.currentWorkspaceId.Some? && u.currentWorkspaceId != Some(id) ==>
                    && ((u.workspaceIds.None? || u.workspaceIds.value == {}) ==> o.result == Err(UserDoesntBelongAnyWorkspace))
                    && (u.workspaceIds.Some? && u.workspaceIds.value != {} && id !in u.workspaceIds.value ==>
                          o.result == Err(UserDoesntBelongToWorkspace))
                    && (u.workspaceIds.Some? && id in u.workspaceIds.value ==> o.result.Ok?))
    ensures o.result.Ok? ==>
              var u := FindByEmail(st.users, env.sessionUser.email).value;
              && o.result.value == u.(currentWorkspaceId := workspaceId)
              && FindByEmail(o.store.users, env.sessionUser.email) == Some(o.result.value)
              && (forall e :: e != env.sessionUser.email ==> FindByEmail(o.store.users, e) == FindByEmail(st.users, e))
  {
    if NullOrEmpty(workspaceId) then Reject(st, InvalidParameter(OrganizationIdParam))
    else
      var id := workspaceId.value;
      match FindByEmail(st.users, env.sessionUser.email)
      case None => Reject(st, CompletedEmpty)
      case Some(u) =>
        if u.currentWorkspaceId.None? then Reject(st, RuntimeFault)
        else if u.currentWorkspaceId.value == id then Outcome(st, [], Ok(u))
        else if u.workspaceIds.None? || u.workspaceIds.value == {} then Reject(st, UserDoesntBelongAnyWorkspace)
        else if id in u.workspaceIds.value then
          var switched := u.(currentWorkspaceId := Some(id));
          Outcome(st.(users := SaveUser(st.users, switched)), [], Ok(switched))
        else Reject(st, UserDoesntBelongToWorkspace)
  }

  /** Switching is idempotent: switching again to the workspace just switched
      to returns the same user and changes nothing. */
  lemma SwitchIsIdempotent(env: Env, st: Store, workspaceId: Option<string>)
    requires SwitchCurrentWorkspace(env, st, workspaceId).result.Ok?
    ensures var o := SwitchCurrentWorkspace(env, st, workspaceId);
            var o2 := SwitchCurrentWorkspace(env, o.store, workspaceId);
            o2.result == o.result && o2.store == o.store
  {
  }

  /** A successful switch changes only the current workspace of the signed-in
      user; its memberships stay as they were. */
  lemma SwitchKeepsMemberships(env: Env, st: Store, workspaceId: Option<string>)
    requires SwitchCurrentWorkspace(env, st, workspaceId).result.Ok?
    ensures var u := FindByEmail(st.users, env.sessionUser.email).value;
            var o := SwitchCurrentWorkspace(env, st, workspaceId);
            && o.result.value.workspaceIds == u.workspaceIds
            && o.result.value.currentWorkspaceId == workspaceId
            && (u.currentWorkspaceId != workspaceId ==> workspaceId.value in u.workspaceIds.value)
  {
  }

  /** `get(params)`: listing users is not supported, whatever the query. */
  function Get(params: map<string, seq<string>>): (r: Result<seq<User>, Error>)
    ensures r.Err? && r.error == UnsupportedOperation
  {
    Err(UnsupportedOperation)
  }
}
