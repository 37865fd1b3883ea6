/**
 From a request to a decision: role resolution (internal/auth/role_resolver.go) and the
 check inside RequireAction (internal/api/middleware/rbac.go).
 */
module Access {
  import opened Wrappers
  import opened AutoAssignment
  import Rbac

  datatype User = User(externalID: string, email: string, orgs: seq<string>, teams: seq<string>)

  /** The user store as its two queries see it: each may fail, and a user may have no assignments. */
  datatype UserStore = UserStore(
    users: map<string, User>,
    assignments: map<string, seq<string>>,
    failing: set<string>) // the ids whose role query fails
  {
    function GetUserBasic(id: string): Option<User> {
      if id in users then Some(users[id]) else None
    }

    function GetRoles(id: string): Option<seq<string>> {
      if id in failing then None
      else if id in assignments then Some(assignments[id]) else Some([])
    }
  }

  datatype Policy = Policy(text: Text, rules: seq<Rule>, defaultRole: string)

  /** Stored roles if there are any, else the roles of the matching rules if any, else the default. */
  function EffectiveRoles(p: Policy, stored: seq<string>, id: UserIdentity): seq<string> {
    var automatic := FirstOccurrences(MatchingRoles(p.text, p.rules, id));
    if stored != [] then stored
    else if automatic != [] then automatic
    else if p.defaultRole != "" then [p.defaultRole]
    else []
  }

  method ResolveRoles(p: Policy, store: UserStore, userID: string, id: UserIdentity)
    returns (roles: Option<seq<string>>)
    ensures roles == match store.GetRoles(userID)
                     case None => None
                     case Some(stored) => Some(EffectiveRoles(p, stored, id))
  {
    var admin := store.GetRoles(userID);
    if admin.None? {
      return None;
    }
    if |admin.value| > 0 {
      return admin;
    }
    var automatic := AutoAssign(p.text, p.rules, id);
    if |automatic| > 0 {
      return Some(automatic);
    }
    if p.defaultRole != "" {
      return Some([p.defaultRole]);
    }
    return Some([]);
  }

  datatype Response = Next | Unauthorized | Forbidden

  /** The identity RequireAction evaluates the rules on. */
  function IdentityOf(u: User): UserIdentity {
    UserIdentity(u.externalID, u.email, u.orgs, u.teams)
  }

  /** The user exists, the roles can be read, and some rule of an effective role grants the action. */
  ghost predicate Granted(cfg: Rbac.RBACConfig, p: Policy, store: UserStore, userID: string, cluster: string,
                          action: string) {
    && store.GetUserBasic(userID).Some?
    && store.GetRoles(userID).Some?
    && var roles := EffectiveRoles(p, store.GetRoles(userID).value, IdentityOf(store.users[userID]));
       Rbac.Allowed(cfg, roles, cluster, action)
  }

  /** Without the user, or without an answer about the stored roles, nothing is granted. */
  lemma UnknownIsRefused(cfg: Rbac.RBACConfig, p: Policy, store: UserStore, userID: string, cluster: string,
                         action: string)
    requires userID !in store.users || userID in store.failing
    ensures !Granted(cfg, p, store, userID, cluster, action)
  {
  }

  /** First rank: stored roles alone decide, whatever the rules and the default role. */
  lemma StoredRolesDecide(cfg: Rbac.RBACConfig, p: Policy, store: UserStore, userID: string, cluster: string,
                          action: string)
    requires userID in store.users && userID !in store.failing
    requires userID in store.assignments && store.assignments[userID] != []
    ensures Granted(cfg, p, store, userID, cluster, action) <==>
            Rbac.Allowed(cfg, store.assignments[userID], cluster, action)
  {
  }

  /** The deduplicated roles of the matching rules allow what one of these rules' roles allows. */
  lemma MatchingRolesAllow(cfg: Rbac.RBACConfig, t: Text, rules: seq<Rule>, id: UserIdentity, cluster: string,
                           action: string)
    ensures Rbac.Allowed(cfg, FirstOccurrences(MatchingRoles(t, rules, id)), cluster, action) <==>
            exists r :: r in rules && Rbac.Allowed(cfg, [r.role], cluster, action) && Matches(t, r.match_, id)
  {
    var roles := FirstOccurrences(MatchingRoles(t, rules, id));
    FirstOccurrencesMeaning(MatchingRoles(t, rules, id));
    MatchingRolesMeaning(t, rules, id);
    Rbac.AllowedByOneRole(cfg, roles, cluster, action);
    if r :| r in rules && Rbac.Allowed(cfg, [r.role], cluster, action) && Matches(t, r.match_, id) {
      assert r.role in roles;
    }
  }

  lemma SomeRoleIff(t: Text, rules: seq<Rule>, id: UserIdentity)
    ensures FirstOccurrences(MatchingRoles(t, rules, id)) != [] <==> exists r :: r in rules && Matches(t, r.match_, id)
  {
    var roles := FirstOccurrences(MatchingRoles(t, rules, id));
    FirstOccurrencesMeaning(MatchingRoles(t, rules, id));
    MatchingRolesMeaning(t, rules, id);
    if r :| r in rules && Matches(t, r.match_, id) {
      assert r.role in roles;
    }
    if roles != [] {
      assert roles[0] in MatchingRoles(t, rules, id);
    }
  }

  /** Second rank: with nothing stored and some rule matching, the roles of the matching rules alone decide. */
  lemma MatchingRulesDecide(cfg: Rbac.RBACConfig, p: Policy, store: UserStore, userID: string, cluster: string,
                            action: string)
    requires userID in store.users && userID !in store.failing
    requires userID in store.assignments ==> store.assignments[userID] == []
    requires var u := store.users[userID];
             exists r :: r in p.rules && Matches(p.text, r.match_, UserIdentity(u.externalID, u.email, u.orgs, u.teams))
    ensures var u := store.users[userID];
            Granted(cfg, p, store, userID, cluster, action) <==>
            exists r :: r in p.rules && Rbac.Allowed(cfg, [r.role], cluster, action) &&
                        Matches(p.text, r.match_, UserIdentity(u.externalID, u.email, u.orgs, u.teams))
  {
    var u := store.users[userID];
    SomeRoleIff(p.text, p.rules, UserIdentity(u.externalID, u.email, u.orgs, u.teams));
    MatchingRolesAllow(cfg, p.text, p.rules, UserIdentity(u.externalID, u.email, u.orgs, u.teams), cluster, action);
  }

  /** Last rank: with nothing stored and no rule matching, the default role decides, or nothing is granted. */
  lemma DefaultRoleDecides(cfg: Rbac.RBACConfig, p: Policy, store: UserStore, userID: string, cluster: string,
                           action: string)
    requires userID in store.users && userID !in store.failing
    requires userID in store.assignments ==> store.assignments[userID] == []
    requires var u := store.users[userID];
             forall r :: r in p.rules ==> !Matches(p.text, r.match_,
                 UserIdentity(u.externalID, u.email, u.orgs, u.teams))
    ensures Granted(cfg, p, store, userID, cluster, action) <==>
            p.defaultRole != "" && Rbac.Allowed(cfg, [p.defaultRole], cluster, action)
  {
    var u := store.users[userID];
    SomeRoleIff(p.text, p.rules, UserIdentity(u.externalID, u.email, u.orgs, u.teams));
    Rbac.AllowedByOneRole(cfg, [], cluster, action);
  }

  method RequireAction(authEnabled: bool, session: Option<string>, rbac: Rbac.RBAC, store: Option<UserStore>, p: Policy,
                       clusterParam: string, action: string)
    returns (r: Response)
    requires rbac.Valid()
    ensures r == Next <==>
            (authEnabled ==>
               session.Some? && store.Some? &&
               Granted(rbac.cfg, p, store.value, session.value, if clusterParam == "" then "*" else clusterParam,
                       action))
    ensures r == Unauthorized <==> authEnabled && session.None?
  {
    if !authEnabled {
      return Next;
    }
    if session.None? {
      return Unauthorized;
    }
    if store.None? {
      return Forbidden;
    }
    var cluster := clusterParam;
    if cluster == "" {
      cluster := "*";
    }
    var user := store.value.GetUserBasic(session.value);
    if user.None? {
      return Forbidden;
    }
    var roles := ResolveRoles(p, store.value, session.value, IdentityOf(user.value));
    if roles.None? {
      return Forbidden;
    }
    var allowed := rbac.IsAllowed(roles.value, cluster, action);
    if !allowed {
      return Forbidden;
    }
    return Next;
  }

  // ---------------------------------------------------------------- the permissions endpoint

  /** The permissions endpoint evaluates the rules on an identity without the external id. */
  function PermissionsIdentity(u: User): UserIdentity {
    UserIdentity("", u.email, u.orgs, u.teams)
  }

  lemma {:induction false} ExternalIDOnlyAdds(t: Text, rules: seq<Rule>, u: User)
    ensures forall r :: r in MatchingRoles(t, rules, PermissionsIdentity(u)) ==>
            r in MatchingRoles(t, rules, IdentityOf(u))
  {
    if rules == [] {
    } else {
      ExternalIDOnlyAdds(t, rules[..|rules| - 1], u);
    }
  }

  /** The front end enables the action for these roles. */
  ghost predicate Enabled(cfg: Rbac.RBACConfig, roles: seq<string>, action: string) {
    Rbac.Listed(cfg, roles, "*", action) || Rbac.Listed(cfg, roles, "*", "*")
  }

  /** Whatever the access rules, the actions enabled for some roles are allowed to others exactly when
      the others include the first. */
  lemma EnabledForSomeAllowedToOthers(shown: seq<string>, held: seq<string>)
    ensures (forall cfg, cluster, action ::
               Enabled(cfg, shown, action) ==> Rbac.Allowed(cfg, held, cluster, action)) <==>
            forall r :: r in shown ==> r in held
  {
    if r :| r in shown && r !in held {
      var rule := Rbac.RBACRule(r, ["*"], ["read"]);
      var cfg := Rbac.RBACConfig(map[], [rule]);
      Rbac.ItemReachable(map[], ["read"], "read");
      assert rule in cfg.rules && Rbac.Contributes(cfg, rule, "read");
      assert Enabled(cfg, shown, "read") && !Rbac.Allowed(cfg, held, "*", "read");
    } else {
      forall cfg, cluster, action | Enabled(cfg, shown, action) ensures Rbac.Allowed(cfg, held, cluster, action) {
        assert Enabled(cfg, held, action);
        Rbac.EnabledIsAllowedEverywhere(cfg, held, action, cluster);
      }
    }
  }

  /** The front end never enables what the middleware refuses, exactly unless it falls back to a default
      role that the middleware does not: no rule matches without the external id, one does with it, and
      none of those gives the default role. */
  lemma EnabledActionsPassIff(p: Policy, stored: seq<string>, u: User)
    ensures var shown := EffectiveRoles(p, stored, PermissionsIdentity(u));
            var held := EffectiveRoles(p, stored, IdentityOf(u));
            var with := MatchingRoles(p.text, p.rules, IdentityOf(u));
            (forall cfg, cluster, action ::
               Enabled(cfg, shown, action) ==> Rbac.Allowed(cfg, held, cluster, action)) <==>
            !(stored == [] && p.defaultRole != "" && p.defaultRole !in with && with != [] &&
              MatchingRoles(p.text, p.rules, PermissionsIdentity(u)) == [])
  {
    var shown, held := EffectiveRoles(p, stored, PermissionsIdentity(u)), EffectiveRoles(p, stored, IdentityOf(u));
    var without := MatchingRoles(p.text, p.rules, PermissionsIdentity(u));
    var with := MatchingRoles(p.text, p.rules, IdentityOf(u));
    ExternalIDOnlyAdds(p.text, p.rules, u);
    FirstOccurrencesMeaning(with);
    FirstOccurrencesMeaning(without);
    assert with != [] ==> with[0] in FirstOccurrences(with);
    assert without != [] ==> without[0] in with && without[0] in FirstOccurrences(without);
    assert shown != [] ==> shown[0] in shown;
    EnabledForSomeAllowedToOthers(shown, held);
  }

  /** So the front end can enable an action that the middleware refuses: a rule gives
      every authenticated user one role, and the default role, shown instead, may do something else. */
  lemma EnabledActionCanBeRefused(t: Text) returns (cfg: Rbac.RBACConfig, p: Policy, store: UserStore)
    ensures "u" in store.users && "u" !in store.failing && p.text == t
    ensures Rbac.Listed(cfg, EffectiveRoles(p, [], PermissionsIdentity(store.users["u"])), "*", "read")
    ensures store.GetRoles("u") == Some([]) && !Granted(cfg, p, store, "u", "*", "read")
  {
    var rule := Rbac.RBACRule("guest", ["*"], ["read"]);
    cfg := Rbac.RBACConfig(map[], [rule]);
    var auto := Rule("member", Match(true, [], [], [], [], [], []));
    p := Policy(t, [auto], "guest");
    var u := User("x", "", [], []);
    store := UserStore(map["u" := u], map[], {});

    Rbac.ItemReachable(map[], ["read"], "read");
    assert Rbac.Contributes(cfg, rule, "read") && rule in cfg.rules;
    var none: seq<Rule> := [];
    assert p.rules[..0] == none;
    assert MatchingRoles(t, p.rules, PermissionsIdentity(u)) == [];
    assert MatchingRoles(t, p.rules, IdentityOf(u)) == ["member"];
    assert ["member"][..0] == [];
    assert EffectiveRoles(p, [], IdentityOf(u)) == ["member"];
  }
}
