/**
 Automatic role assignment (internal/auth/auto_assignment.go).

 The source counts stated conditions and matched conditions and compares the two
 counts; the specification is the conjunction of the stated conditions.
 Unicode lower-casing and case folding are left uninterpreted.
 */
module AutoAssignment {
  import opened Wrappers

  /** strings.ToLower and strings.EqualFold. */
  datatype Text = Text(lower: string -> string, equalFold: (string, string) -> bool)

  datatype UserIdentity = UserIdentity(externalID: string, email: string, orgs: seq<string>, teams: seq<string>)

  datatype Match = Match(
    authenticated: bool,
    emails: seq<string>,
    emailDomains: seq<string>,
    gitHubOrgs: seq<string>,
    gitHubTeams: seq<string>,
    gitLabGroups: seq<string>,
    ldapGroups: seq<string>)

  datatype Rule = Rule(role: string, match_: Match)

  // ---------------------------------------------------------------- the conditions

  /** The part of an e-mail address after its first '@'. */
  function DomainOf(email: string): Option<string> {
    if email == [] then None
    else if email[0] == '@' then Some(email[1..])
    else DomainOf(email[1..])
  }

  lemma {:induction false} DomainOfMeaning(email: string)
    ensures DomainOf(email).Some? <==> '@' in email
    ensures DomainOf(email).Some? ==>
              var n := |email| - |DomainOf(email).value| - 1;
              0 <= n && email[n] == '@' && '@' !in email[..n] && DomainOf(email).value == email[n + 1..]
  {
    if email == [] {
    } else if email[0] == '@' {
    } else {
      DomainOfMeaning(email[1..]);
      assert email == [email[0]] + email[1..];
      if DomainOf(email).Some? {
        var n := |email| - |DomainOf(email).value| - 1;
        assert email[..n] == [email[0]] + email[1..][..n - 1];
      }
    }
  }

  function TrimAt(domain: string): string {
    if domain != [] && domain[0] == '@' then domain[1..] else domain
  }

  predicate EmailListed(t: Text, emails: seq<string>, email: string) {
    exists e :: e in emails && t.equalFold(email, e)
  }

  predicate DomainListed(t: Text, domains: seq<string>, email: string) {
    var domain := DomainOf(email);
    domain.Some? && exists d :: d in domains && t.lower(domain.value) == t.lower(TrimAt(d))
  }

  predicate Overlap(t: Text, a: seq<string>, b: seq<string>) {
    exists x, y :: x in a && y in b && t.lower(x) == t.lower(y)
  }

  predicate StatesSomething(m: Match) {
    || m.authenticated || m.emails != [] || m.emailDomains != []
    || m.gitHubOrgs != [] || m.gitHubTeams != [] || m.gitLabGroups != [] || m.ldapGroups != []
  }

  predicate GroupsMatch(t: Text, m: Match, id: UserIdentity) {
    && (m.gitHubOrgs != [] ==> Overlap(t, id.orgs, m.gitHubOrgs))
    && (m.gitHubTeams != [] ==> Overlap(t, id.teams, m.gitHubTeams))
    && (m.gitLabGroups != [] ==> Overlap(t, id.orgs, m.gitLabGroups))
    && (m.ldapGroups != [] ==> Overlap(t, id.orgs, m.ldapGroups))
  }

  /** At least one condition is stated and every stated condition holds. */
  predicate Matches(t: Text, m: Match, id: UserIdentity) {
    && StatesSomething(m)
    && (m.authenticated ==> id.externalID != "")
    && (m.emails != [] ==> EmailListed(t, m.emails, id.email))
    && (m.emailDomains != [] ==> DomainListed(t, m.emailDomains, id.email))
    && GroupsMatch(t, m, id)
  }

  /** A rule matches exactly if it states a condition and each that it states matches as a rule of its own. */
  lemma MatchesIffEachCondition(t: Text, m: Match, id: UserIdentity)
    ensures Matches(t, m, id) <==>
            && (m.authenticated || m.emails != [] || m.emailDomains != [] || m.gitHubOrgs != [] || m.gitHubTeams != []
               || m.gitLabGroups != [] || m.ldapGroups != [])
            && (m.authenticated ==> Matches(t, Match(true, [], [], [], [], [], []), id))
            && (m.emails != [] ==> Matches(t, Match(false, m.emails, [], [], [], [], []), id))
            && (m.emailDomains != [] ==> Matches(t, Match(false, [], m.emailDomains, [], [], [], []), id))
            && (m.gitHubOrgs != [] ==> Matches(t, Match(false, [], [], m.gitHubOrgs, [], [], []), id))
            && (m.gitHubTeams != [] ==> Matches(t, Match(false, [], [], [], m.gitHubTeams, [], []), id))
            && (m.gitLabGroups != [] ==> Matches(t, Match(false, [], [], [], [], m.gitLabGroups, []), id))
            && (m.ldapGroups != [] ==> Matches(t, Match(false, [], [], [], [], [], m.ldapGroups), id))
  {
  }

  /** What each condition alone asks: of the external id, of the e-mail address, of the part of it after its first
      "@" (with a leading "@" of the configured domain ignored), of organisations for GitHub, GitLab and LDAP, and of
      teams for GitHub teams. */
  lemma SingleConditions(t: Text, xs: seq<string>, id: UserIdentity)
    requires xs != []
    ensures Matches(t, Match(true, [], [], [], [], [], []), id) <==> id.externalID != ""
    ensures Matches(t, Match(false, xs, [], [], [], [], []), id) <==> exists x :: x in xs && t.equalFold(id.email, x)
    ensures Matches(t, Match(false, [], xs, [], [], [], []), id) <==>
            exists n, x :: && 0 <= n < |id.email| && id.email[n] == '@' && '@' !in id.email[..n] && x in xs
                           && t.lower(id.email[n + 1..]) == t.lower(if "@" <= x then x[1..] else x)
    ensures Matches(t, Match(false, [], [], xs, [], [], []), id) <==>
            exists o, x :: o in id.orgs && x in xs && t.lower(o) == t.lower(x)
    ensures Matches(t, Match(false, [], [], [], xs, [], []), id) <==>
            exists o, x :: o in id.teams && x in xs && t.lower(o) == t.lower(x)
    ensures Matches(t, Match(false, [], [], [], [], xs, []), id) <==>
            exists o, x :: o in id.orgs && x in xs && t.lower(o) == t.lower(x)
    ensures Matches(t, Match(false, [], [], [], [], [], xs), id) <==>
            exists o, x :: o in id.orgs && x in xs && t.lower(o) == t.lower(x)
  {
    DomainCondition(t, xs, id.email);
  }

  lemma DomainCondition(t: Text, xs: seq<string>, email: string)
    ensures DomainListed(t, xs, email) <==>
            exists n, x :: && 0 <= n < |email| && email[n] == '@' && '@' !in email[..n] && x in xs
                           && t.lower(email[n + 1..]) == t.lower(if "@" <= x then x[1..] else x)
  {
    DomainOfMeaning(email);
    if n, x :| && 0 <= n < |email| && email[n] == '@' && '@' !in email[..n] && x in xs
               && t.lower(email[n + 1..]) == t.lower(if "@" <= x then x[1..] else x) {
      FirstAtUnique(email, n);
      assert TrimAt(x) == if "@" <= x then x[1..] else x;
    }
    if DomainListed(t, xs, email) {
      var n := |email| - |DomainOf(email).value| - 1;
      var x :| x in xs && t.lower(DomainOf(email).value) == t.lower(TrimAt(x));
      assert TrimAt(x) == if "@" <= x then x[1..] else x;
    }
  }

  lemma {:induction false} FirstAtUnique(email: string, n: nat)
    requires n < |email| && email[n] == '@' && '@' !in email[..n]
    ensures DomainOf(email) == Some(email[n + 1..])
  {
    if n == 0 {
    } else {
      assert email[..n][0] == email[0] && email[..n][1..] == email[1..][..n - 1];
      FirstAtUnique(email[1..], n - 1);
    }
  }

  method HasOverlap(t: Text, a: seq<string>, b: seq<string>) returns (ok: bool)
    ensures ok <==> Overlap(t, a, b)
  {
    var lowered: set<string> := {};
    for i := 0 to |b|
      invariant forall s :: s in lowered <==> exists k :: 0 <= k < i && t.lower(b[k]) == s
    {
      lowered := lowered + {t.lower(b[i])};
    }
    for i := 0 to |a|
      invariant forall k :: 0 <= k < i ==> t.lower(a[k]) !in lowered
    {
      if t.lower(a[i]) in lowered {
        assert a[i] in a;
        return true;
      }
    }
    return false;
  }

  method FindEmail(t: Text, emails: seq<string>, email: string) returns (found: bool)
    ensures found <==> EmailListed(t, emails, email)
  {
    for i := 0 to |emails|
      invariant forall k :: 0 <= k < i ==> !t.equalFold(email, emails[k])
    {
      if t.equalFold(email, emails[i]) {
        assert emails[i] in emails;
        return true;
      }
    }
    return false;
  }

  method FindDomain(t: Text, domains: seq<string>, email: string) returns (found: bool)
    ensures found <==> DomainListed(t, domains, email)
  {
    var domain := DomainOf(email);
    if domain.None? {
      return false;
    }
    var emailDomain := t.lower(domain.value);
    for i := 0 to |domains|
      invariant forall k :: 0 <= k < i ==> emailDomain != t.lower(TrimAt(domains[k]))
    {
      if emailDomain == t.lower(TrimAt(domains[i])) {
        assert domains[i] in domains;
        return true;
      }
    }
    return false;
  }

  /** The four group conditions of MatchesRule: how many are stated and how many of them hold. */
  method CountGroups(t: Text, m: Match, id: UserIdentity) returns (conditions: nat, matched: nat)
    ensures matched <= conditions && (matched == conditions <==> GroupsMatch(t, m, id))
    ensures conditions > 0 <==> m.gitHubOrgs != [] || m.gitHubTeams != [] || m.gitLabGroups != [] || m.ldapGroups != []
  {
    conditions, matched := 0, 0;
    if |m.gitHubOrgs| > 0 {
      conditions := conditions + 1;
      var found := HasOverlap(t, id.orgs, m.gitHubOrgs);
      if found { matched := matched + 1; }
    }
    if |m.gitHubTeams| > 0 {
      conditions := conditions + 1;
      var found := HasOverlap(t, id.teams, m.gitHubTeams);
      if found { matched := matched + 1; }
    }
    if |m.gitLabGroups| > 0 {
      conditions := conditions + 1;
      var found := HasOverlap(t, id.orgs, m.gitLabGroups);
      if found { matched := matched + 1; }
    }
    if |m.ldapGroups| > 0 {
      conditions := conditions + 1;
      var found := HasOverlap(t, id.orgs, m.ldapGroups);
      if found { matched := matched + 1; }
    }
  }

  method MatchesRule(t: Text, m: Match, id: UserIdentity) returns (ok: bool)
    ensures ok <==> Matches(t, m, id)
  {
    var conditions, matched := 0, 0;
    if m.authenticated {
      conditions := conditions + 1;
      if id.externalID != "" { matched := matched + 1; }
    }
    if |m.emails| > 0 {
      conditions := conditions + 1;
      var found := FindEmail(t, m.emails, id.email);
      if found { matched := matched + 1; }
    }
    if |m.emailDomains| > 0 {
      conditions := conditions + 1;
      var found := FindDomain(t, m.emailDomains, id.email);
      if found { matched := matched + 1; }
    }
    var stated, held := CountGroups(t, m, id);
    conditions, matched := conditions + stated, matched + held;
    ok := conditions > 0 && matched == conditions;
  }

  // ---------------------------------------------------------------- the roles of all matching rules

  function MatchingRoles(t: Text, rules: seq<Rule>, id: UserIdentity): seq<string> {
    if rules == [] then []
    else
      var n := |rules| - 1;
      MatchingRoles(t, rules[..n], id) + if Matches(t, rules[n].match_, id) then [rules[n].role] else []
  }

  /** The matching roles are those of the matching rules, in the order of the rules. */
  lemma {:induction false} MatchingRolesMeaning(t: Text, rules: seq<Rule>, id: UserIdentity)
    ensures forall r :: r in MatchingRoles(t, rules, id) <==>
              exists rule :: rule in rules && Matches(t, rule.match_, id) && rule.role == r
  {
    if rules == [] {
    } else {
      var n := |rules| - 1;
      MatchingRolesMeaning(t, rules[..n], id);
      assert rules == rules[..n] + [rules[n]];
    }
  }

  lemma {:induction false} MatchingRolesAppend(t: Text, a: seq<Rule>, b: seq<Rule>, id: UserIdentity)
    ensures MatchingRoles(t, a + b, id) == MatchingRoles(t, a, id) + MatchingRoles(t, b, id)
  {
    if b == [] {
      assert a + b == a;
    } else {
      var n := |b| - 1;
      assert (a + b)[..|a + b| - 1] == a + b[..n];
      MatchingRolesAppend(t, a, b[..n], id);
    }
  }

  /** The list without the later occurrences of what it repeats. */
  function FirstOccurrences(s: seq<string>): seq<string> {
    if s == [] then []
    else
      var before, last := FirstOccurrences(s[..|s| - 1]), s[|s| - 1];
      if last in before then before else before + [last]
  }

  method AutoAssign(t: Text, rules: seq<Rule>, id: UserIdentity) returns (result: seq<string>)
    ensures result == FirstOccurrences(MatchingRoles(t, rules, id))
  {
    var seen: set<string> := {};
    result := [];
    for i := 0 to |rules|
      invariant forall r :: r in seen <==> r in result
      invariant result == FirstOccurrences(MatchingRoles(t, rules[..i], id))
    {
      assert rules[..i + 1][..i] == rules[..i];
      ghost var roles := MatchingRoles(t, rules[..i], id);
      assert (roles + [rules[i].role])[..|roles|] == roles && roles + [] == roles;
      var matches := MatchesRule(t, rules[i].match_, id);
      if matches && rules[i].role !in seen {
        seen := seen + {rules[i].role};
        result := result + [rules[i].role];
      }
    }
    assert rules[..|rules|] == rules;
  }

  function IndexOf(s: seq<string>, x: string): nat
    requires x in s
    ensures IndexOf(s, x) < |s| && s[IndexOf(s, x)] == x
    ensures forall k :: 0 <= k < IndexOf(s, x) ==> s[k] != x
  {
    if s[0] == x then 0 else 1 + IndexOf(s[1..], x)
  }

  lemma IndexInPrefix(s: seq<string>, n: nat, x: string)
    requires n <= |s| && x in s[..n]
    ensures x in s && IndexOf(s[..n], x) == IndexOf(s, x)
  {
    var i := IndexOf(s[..n], x);
    assert s[i] == s[..n][i] == x;
    forall k | 0 <= k < i ensures s[k] != x { assert s[k] == s[..n][k]; }
  }

  /** Every element survives once, and the survivors stand in the order of their first occurrences. */
  lemma {:induction false} FirstOccurrencesMeaning(s: seq<string>)
    ensures forall x :: x in FirstOccurrences(s) <==> x in s
    ensures forall i, j :: 0 <= i < j < |FirstOccurrences(s)| ==>
              FirstOccurrences(s)[i] in s && FirstOccurrences(s)[j] in s &&
              IndexOf(s, FirstOccurrences(s)[i]) < IndexOf(s, FirstOccurrences(s)[j])
  {
    if s == [] {
    } else {
      var n := |s| - 1;
      var before, out := FirstOccurrences(s[..n]), FirstOccurrences(s);
      FirstOccurrencesMeaning(s[..n]);
      assert s == s[..n] + [s[n]];
      assert forall x :: x in s <==> x in s[..n] || x == s[n];
      forall x | x in s[..n] ensures IndexOf(s, x) == IndexOf(s[..n], x) {
        IndexInPrefix(s, n, x);
      }
      forall i, j | 0 <= i < j < |out|
        ensures out[i] in s && out[j] in s && IndexOf(s, out[i]) < IndexOf(s, out[j])
      {
        assert out[i] == before[i] && before[i] in s[..n];
        if j < |before| {
          assert out[j] == before[j] && before[j] in s[..n];
        }
      }
    }
  }
}
