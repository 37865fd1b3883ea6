/**
 Role-based access control (internal/auth/rbac.go): the expansion of action groups
 by a depth-first walk over one shared seen set, and the access decision made on it.

 The specification is reachability in the group graph, which may be cyclic.
 */
module Rbac {

  type RoleGroups = map<string, seq<string>>

  datatype RBACRule = RBACRule(role: string, clusters: seq<string>, actions: seq<string>)
  datatype RBACConfig = RBACConfig(roleGroups: RoleGroups, rules: seq<RBACRule>)

  predicate NoDuplicates(s: seq<string>) {
    forall i, j :: 0 <= i < j < |s| ==> s[i] != s[j]
  }

  // ---------------------------------------------------------------- reachability

  /** A chain of group references that starts at one of the items. */
  predicate IsPath(groups: RoleGroups, items: seq<string>, path: seq<string>)
    decreases |path|
  {
    && path != []
    && path[0] in items
    && (|path| > 1 ==> path[0] in groups && IsPath(groups, groups[path[0]], path[1..]))
  }

  function End(path: seq<string>): string
    requires path != []
  {
    path[|path| - 1]
  }

  ghost predicate Reachable(groups: RoleGroups, items: seq<string>, name: string) {
    exists path :: IsPath(groups, items, path) && End(path) == name
  }

  /** A leaf is a reachable name that is not itself a group. */
  ghost predicate Leaf(groups: RoleGroups, items: seq<string>, name: string) {
    name !in groups && Reachable(groups, items, name)
  }

  lemma ItemReachable(groups: RoleGroups, items: seq<string>, name: string)
    requires name in items
    ensures Reachable(groups, items, name)
  {
    assert IsPath(groups, items, [name]) && End([name]) == name;
  }

  lemma ReachableThroughGroup(groups: RoleGroups, items: seq<string>, group: string, name: string)
    requires group in items && group in groups && Reachable(groups, groups[group], name)
    ensures Reachable(groups, items, name)
  {
    var path :| IsPath(groups, groups[group], path) && End(path) == name;
    var longer := [group] + path;
    assert longer[1..] == path;
    assert IsPath(groups, items, longer) && End(longer) == name;
  }

  /** Every group of the set that is not among the exempt ones has all its members in the set. */
  predicate Closed(groups: RoleGroups, names: set<string>, exempt: set<string>) {
    forall g, x :: g in names - exempt && g in groups && x in groups[g] ==> x in names
  }

  lemma {:induction false} ClosedHoldsPath(groups: RoleGroups, items: seq<string>, names: set<string>,
                                           path: seq<string>)
    requires Closed(groups, names, {}) && (forall x :: x in items ==> x in names)
    requires IsPath(groups, items, path)
    ensures End(path) in names
    decreases |path|
  {
    if |path| == 1 {
    } else {
      ClosedHoldsPath(groups, groups[path[0]], names, path[1..]);
    }
  }

  // ---------------------------------------------------------------- the depth-first expansion

  /** The variables that the recursive closure of expandActions shares. */
  class Expansion {
    const groups: RoleGroups
    var seen: set<string>
    var result: seq<string>

    /** The result lists the seen names that are not groups, each once. */
    ghost predicate Valid()
      reads this
    {
      && NoDuplicates(result)
      && forall x :: x in result <==> x in seen && x !in groups
    }

    constructor (groups: RoleGroups)
      ensures this.groups == groups && seen == {} && Valid()
    {
      this.groups := groups;
      seen, result := {}, [];
    }

    method Expand(items: seq<string>)
      requires Valid()
      modifies this
      ensures Valid() && old(seen) <= seen
      ensures forall x :: x in items ==> x in seen
      ensures Closed(groups, seen, old(seen))
      ensures forall x :: x in seen - old(seen) ==> Reachable(groups, items, x)
      decreases groups.Keys - seen, |items|
    {
      for i := 0 to |items|
        invariant Valid() && old(seen) <= seen
        invariant forall k :: 0 <= k < i ==> items[k] in seen
        invariant Closed(groups, seen, old(seen))
        invariant forall x :: x in seen - old(seen) ==> Reachable(groups, items, x)
      {
        var item := items[i];
        ItemReachable(groups, items, item);
        if item in seen {
          continue;
        }
        if item in groups {
          seen := seen + {item};
          ghost var before := seen;
          Expand(groups[item]);
          forall x | x in seen - before ensures Reachable(groups, items, x) {
            ReachableThroughGroup(groups, items, item, x);
          }
        } else {
          seen := seen + {item};
          result := result + [item];
        }
      }
    }
  }

  /** Each leaf reachable from the actions, once, on any group graph. */
  method ExpandActions(groups: RoleGroups, actions: seq<string>) returns (result: seq<string>)
    ensures NoDuplicates(result)
    ensures forall a :: a in result <==> Leaf(groups, actions, a)
  {
    var walk := new Expansion(groups);
    walk.Expand(actions);
    result := walk.result;
    forall a | Leaf(groups, actions, a) ensures a in walk.seen {
      var path :| IsPath(groups, actions, path) && End(path) == a;
      ClosedHoldsPath(groups, actions, walk.seen, path);
    }
  }

  // ---------------------------------------------------------------- the access decision

  /** The entries name the value or hold the wildcard. */
  predicate Covers(entries: seq<string>, value: string) {
    "*" in entries || value in entries
  }

  /** The actions a rule contributes once its groups are expanded. */
  ghost predicate Contributes(cfg: RBACConfig, rule: RBACRule, action: string) {
    if "*" in rule.actions then action == "*" else Leaf(cfg.roleGroups, rule.actions, action)
  }

  /** Some rule of one of the roles covers the cluster and states or reaches the action or "*". */
  ghost predicate Allowed(cfg: RBACConfig, roles: seq<string>, cluster: string, action: string) {
    exists rule :: rule in cfg.rules && rule.role in roles && Covers(rule.clusters, cluster) &&
                   ( "*" in rule.actions
                   || Leaf(cfg.roleGroups, rule.actions, "*")
                   || Leaf(cfg.roleGroups, rule.actions, action))
  }

  /** The action is among the expanded actions of a rule of one of the roles for this cluster. */
  ghost predicate Listed(cfg: RBACConfig, roles: seq<string>, cluster: string, action: string) {
    exists rule :: rule in cfg.rules && rule.role in roles && Covers(rule.clusters, cluster) &&
                   Contributes(cfg, rule, action)
  }

  method MatchesEntry(list: seq<string>, value: string) returns (ok: bool)
    ensures ok <==> Covers(list, value)
  {
    for i := 0 to |list|
      invariant !Covers(list[..i], value)
    {
      if list[i] == "*" || list[i] == value {
        return true;
      }
    }
    assert list[..|list|] == list;
    return false;
  }

  method ContainsWildcard(list: seq<string>) returns (ok: bool)
    ensures ok <==> "*" in list
  {
    for i := 0 to |list|
      invariant "*" !in list[..i]
    {
      if list[i] == "*" {
        return true;
      }
    }
    return false;
  }

  datatype ExpandedRule = ExpandedRule(role: string, clusters: seq<string>, actions: seq<string>)

  /** The expanded rule lists what the configured rule contributes. */
  ghost predicate Expands(cfg: RBACConfig, rule: RBACRule, er: ExpandedRule) {
    && er.role == rule.role && er.clusters == rule.clusters
    && NoDuplicates(er.actions)
    && forall a :: a in er.actions <==> Contributes(cfg, rule, a)
  }

  class RBAC {
    const cfg: RBACConfig
    var expandedRules: seq<ExpandedRule>

    ghost predicate Valid()
      reads this
    {
      && |expandedRules| == |cfg.rules|
      && forall i :: 0 <= i < |cfg.rules| ==> Expands(cfg, cfg.rules[i], expandedRules[i])
    }

    constructor (cfg: RBACConfig)
      ensures this.cfg == cfg && Valid()
    {
      this.cfg := cfg;
      expandedRules := [];
      new;
      for i := 0 to |cfg.rules|
        invariant this.cfg == cfg && |expandedRules| == i
        invariant forall k :: 0 <= k < i ==> Expands(cfg, cfg.rules[k], expandedRules[k])
      {
        var rule := cfg.rules[i];
        var actions;
        var wild := ContainsWildcard(rule.actions);
        if wild {
          actions := ["*"];
        } else {
          actions := ExpandActions(cfg.roleGroups, rule.actions);
        }
        expandedRules := expandedRules + [ExpandedRule(rule.role, rule.clusters, actions)];
      }
    }

    method IsAllowed(userRoles: seq<string>, cluster: string, action: string) returns (ok: bool)
      requires Valid()
      ensures ok <==> Allowed(cfg, userRoles, cluster, action)
    {
      for i := 0 to |userRoles|
        invariant !Allowed(cfg, userRoles[..i], cluster, action)
      {
        for j := 0 to |expandedRules|
          invariant forall k | 0 <= k < j && cfg.rules[k].role == userRoles[i] &&
                    Covers(cfg.rules[k].clusters, cluster) ::
                      !Contributes(cfg, cfg.rules[k], action) && !Contributes(cfg, cfg.rules[k], "*")
        {
          var rule := expandedRules[j];
          assert Expands(cfg, cfg.rules[j], rule);
          if rule.role != userRoles[i] {
            continue;
          }
          var here := MatchesEntry(rule.clusters, cluster);
          if !here {
            continue;
          }
          var granted := MatchesEntry(rule.actions, action);
          if !granted {
            continue;
          }
          assert cfg.rules[j] in cfg.rules;
          return true;
        }
      }
      return false;
    }

    method ExpandedActions(userRoles: seq<string>, cluster: string) returns (result: seq<string>)
      requires Valid()
      ensures NoDuplicates(result)
      ensures forall a :: a in result <==> Listed(cfg, userRoles, cluster, a)
    {
      var seen: set<string> := {};
      result := [];
      for i := 0 to |userRoles|
        invariant NoDuplicates(result) && forall a :: a in seen <==> a in result
        invariant forall a :: a in result ==> Listed(cfg, userRoles, cluster, a)
        invariant forall a :: Listed(cfg, userRoles[..i], cluster, a) ==> a in result
      {
        for j := 0 to |expandedRules|
          invariant NoDuplicates(result) && forall a :: a in seen <==> a in result
          invariant forall a :: a in result ==> Listed(cfg, userRoles, cluster, a)
          invariant forall a :: Listed(cfg, userRoles[..i], cluster, a) ==> a in result
          invariant forall k, a | 0 <= k < j && cfg.rules[k].role == userRoles[i] ::
                      Covers(cfg.rules[k].clusters, cluster) && Contributes(cfg, cfg.rules[k], a) ==> a in result
        {
          var rule := expandedRules[j];
          assert Expands(cfg, cfg.rules[j], rule) && cfg.rules[j] in cfg.rules;
          if rule.role != userRoles[i] {
            continue;
          }
          var here := MatchesEntry(rule.clusters, cluster);
          if !here {
            continue;
          }
          ghost var before := result;
          for k := 0 to |rule.actions|
            invariant NoDuplicates(result) && forall a :: a in seen <==> a in result
            invariant forall a :: a in before ==> a in result
            invariant forall a :: a in result ==> a in before || a in rule.actions
            invariant forall m :: 0 <= m < k ==> rule.actions[m] in result
          {
            var action := rule.actions[k];
            if action !in seen {
              seen := seen + {action};
              result := result + [action];
            }
          }
        }
      }
    }
  }

  /** Roles add up: what a list of roles allows is what one of its roles allows. */
  lemma AllowedByOneRole(cfg: RBACConfig, roles: seq<string>, cluster: string, action: string)
    ensures Allowed(cfg, roles, cluster, action) <==>
            exists role :: role in roles && Allowed(cfg, [role], cluster, action)
  {
    if Allowed(cfg, roles, cluster, action) {
      var rule :| rule in cfg.rules && rule.role in roles && Covers(rule.clusters, cluster) &&
                  ( "*" in rule.actions
                  || Leaf(cfg.roleGroups, rule.actions, "*")
                  || Leaf(cfg.roleGroups, rule.actions, action));
      assert Allowed(cfg, [rule.role], cluster, action);
    }
  }

  lemma PathOfItem(groups: RoleGroups, item: string, path: seq<string>)
    requires item !in groups && IsPath(groups, [item], path)
    ensures End(path) == item
  {
  }

  /** A single rule for one cluster and one plain action, both possibly "*", allows exactly that. */
  lemma SingleRuleAllows(role: string, on: string, what: string, roles: seq<string>, cluster: string, action: string)
    ensures Allowed(RBACConfig(map[], [RBACRule(role, [on], [what])]), roles, cluster, action) <==>
            role in roles && (on == "*" || on == cluster) && (what == "*" || what == action)
  {
    var rule := RBACRule(role, [on], [what]);
    var cfg := RBACConfig(map[], [rule]);
    assert forall r :: r in cfg.rules <==> r == rule;
    ItemReachable(map[], [what], what);
    forall name | Leaf(map[], [what], name) ensures name == what {
      var path :| IsPath(map[], [what], path) && End(path) == name;
      PathOfItem(map[], what, path);
    }
  }

  /** A rule for a group of plain actions allows what the group lists, and the group's own name is no action. */
  lemma SingleGroupAllows(role: string, group: string, members: seq<string>, roles: seq<string>, cluster: string,
                          action: string)
    requires group !in members && group != "*"
    ensures Allowed(RBACConfig(map[group := members], [RBACRule(role, ["*"], [group])]), roles, cluster, action) <==>
            role in roles && ("*" in members || action in members)
  {
    var groups := map[group := members];
    var rule := RBACRule(role, ["*"], [group]);
    var cfg := RBACConfig(groups, [rule]);
    assert forall r :: r in cfg.rules <==> r == rule;
    forall name | name in members ensures Leaf(groups, [group], name) {
      ItemReachable(groups, members, name);
      ReachableThroughGroup(groups, [group], group, name);
    }
    forall name | Leaf(groups, [group], name) ensures name in members {
      var path :| IsPath(groups, [group], path) && End(path) == name;
      PathThroughGroup(group, members, path);
    }
  }

  lemma PathThroughGroup(group: string, members: seq<string>, path: seq<string>)
    requires group !in members && IsPath(map[group := members], [group], path)
    ensures End(path) == group || End(path) in members
  {
    if |path| == 1 {
    } else {
      assert IsPath(map[group := members], members, path[1..]);
      assert path[1..][0] in members;
    }
  }

  /** What IsAllowed decides is what the action list of ExpandedActions says. */
  lemma AllowedIffListed(cfg: RBACConfig, roles: seq<string>, cluster: string, action: string)
    ensures Allowed(cfg, roles, cluster, action) <==>
            Listed(cfg, roles, cluster, action) || Listed(cfg, roles, cluster, "*")
  {
    if Allowed(cfg, roles, cluster, action) {
      var rule :| rule in cfg.rules && rule.role in roles && Covers(rule.clusters, cluster) &&
                  ( "*" in rule.actions
                  || Leaf(cfg.roleGroups, rule.actions, "*")
                  || Leaf(cfg.roleGroups, rule.actions, action));
      assert Contributes(cfg, rule, action) || Contributes(cfg, rule, "*");
    }
  }

  /** The front end enables an action when the list for cluster "*" holds it or "*";
      every action it enables is allowed on every cluster. */
  lemma EnabledIsAllowedEverywhere(cfg: RBACConfig, roles: seq<string>, action: string, cluster: string)
    requires Listed(cfg, roles, "*", action) || Listed(cfg, roles, "*", "*")
    ensures Allowed(cfg, roles, cluster, action)
  {
    var shown := if Listed(cfg, roles, "*", action) then action else "*";
    var rule :| rule in cfg.rules && rule.role in roles && Covers(rule.clusters, "*") && Contributes(cfg, rule, shown);
    assert Covers(rule.clusters, cluster);
    assert Listed(cfg, roles, cluster, shown);
    AllowedIffListed(cfg, roles, cluster, action);
  }
}
