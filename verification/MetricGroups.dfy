/**
 Grouping scraped metrics for display (groupMetrics in internal/api/handlers/metrics.go):
 by prefix, each group sorted by metric name, the groups sorted by display name.

 Different prefixes can have the same display name; then the order of the answer is open.
 */
module MetricGroups {
  import opened MetricsStore
  import opened Sorting

  datatype MetricDetail = MetricDetail(name: string, help: string, kind: string, current: seq<Sample>,
                                       history: seq<MetricPoint>)
  datatype MetricGroup = MetricGroup(name: string, prefix: string, metrics: seq<MetricDetail>)

  /** The time series of a metric, as the store answers for this request. */
  type History = string -> seq<MetricPoint>

  // ---------------------------------------------------------------- prefixes and display names

  /** The name up to its first underscore, and what follows it. */
  function Head(s: string): (h: string)
    ensures '_' !in h && |h| <= |s|
  {
    if s == [] || s[0] == '_' then [] else [s[0]] + Head(s[1..])
  }

  /** The first two underscore-separated parts, or the whole name if there is no underscore. */
  function MetricPrefix(name: string): string {
    var first := Head(name);
    if |first| == |name| then name + "_"
    else first + "_" + Head(name[|first| + 1..]) + "_"
  }

  function Underscores(s: string): nat {
    if s == [] then 0 else Underscores(s[..|s| - 1]) + if s[|s| - 1] == '_' then 1 else 0
  }

  lemma {:induction false} UnderscoresAppend(a: string, b: string)
    ensures Underscores(a + b) == Underscores(a) + Underscores(b)
  {
    if b == [] {
      assert a + b == a;
    } else {
      assert (a + b)[..|a + b| - 1] == a + b[..|b| - 1];
      UnderscoresAppend(a, b[..|b| - 1]);
    }
  }

  lemma {:induction false} NoUnderscore(s: string)
    requires '_' !in s
    ensures Underscores(s) == 0
  {
    if s == [] {
    } else {
      NoUnderscore(s[..|s| - 1]);
    }
  }

  lemma {:induction false} HeadEnds(s: string)
    ensures Head(s) <= s && (|Head(s)| < |s| ==> s[|Head(s)|] == '_')
    ensures |Head(s)| == |s| <==> '_' !in s
  {
    if s == [] || s[0] == '_' {
    } else {
      HeadEnds(s[1..]);
    }
  }

  lemma OneMoreUnderscore(s: string)
    ensures Underscores(s + "_") == Underscores(s) + 1
  {
    assert (s + "_")[..|s|] == s;
  }

  lemma TwoParts(first: string, second: string, rest: string)
    requires '_' !in first && '_' !in second
    ensures Underscores((first + "_") + (second + "_")) == 2
    ensures Underscores((first + "_") + (rest + "_")) >= 2
  {
    NoUnderscore(first);
    NoUnderscore(second);
    OneMoreUnderscore(first);
    OneMoreUnderscore(second);
    OneMoreUnderscore(rest);
    UnderscoresAppend(first + "_", second + "_");
    UnderscoresAppend(first + "_", rest + "_");
  }

  lemma Regroup(a: string, b: string)
    ensures a + "_" + b + "_" == (a + "_") + (b + "_")
  {
  }

  lemma Rejoin(name: string, n: nat)
    requires n < |name| && name[n] == '_'
    ensures name + "_" == (name[..n] + "_") + (name[n + 1..] + "_")
  {
  }

  /** A name with an underscore, its first part cut off. */
  lemma CutFirst(name: string)
    requires '_' in name
    ensures |Head(name)| < |name| && '_' !in Head(name)
    ensures var first, rest := Head(name), name[|Head(name)| + 1..];
            && name + "_" == (first + "_") + (rest + "_")
            && MetricPrefix(name) == (first + "_") + (Head(rest) + "_")
  {
    HeadEnds(name);
    var n := |Head(name)|;
    Rejoin(name, n);
    assert name[..n] == Head(name);
    Regroup(Head(name), Head(name[n + 1..]));
  }

  /** The prefix is the part of the name, with an underscore added at its end, up to and including the
      second underscore, or all of it if there is only that one. */
  lemma PrefixMeaning(name: string)
    ensures var p, closed := MetricPrefix(name), name + "_";
            && p <= closed && p != [] && p[|p| - 1] == '_'
            && Underscores(p) == if Underscores(closed) < 2 then Underscores(closed) else 2
  {
    if '_' in name {
      CutFirst(name);
      var first, rest := Head(name), name[|Head(name)| + 1..];
      HeadEnds(rest);
      TwoParts(first, Head(rest), rest);
      PrefixOfClosed(first + "_", Head(rest), rest);
    } else {
      HeadEnds(name);
      NoUnderscore(name);
      OneMoreUnderscore(name);
    }
  }

  lemma PrefixOfClosed(front: string, second: string, rest: string)
    requires second <= rest && (|second| < |rest| ==> rest[|second|] == '_')
    ensures front + (second + "_") <= front + (rest + "_")
  {
  }

  function Upper(c: char): char {
    if 'a' <= c <= 'z' then (c as int - 32) as char else c
  }

  /** Underscores become spaces, and the first letter of every part a capital. */
  function Title(s: string, atStart: bool): string {
    if s == [] then []
    else if s[0] == '_' then [' '] + Title(s[1..], true)
    else [if atStart then Upper(s[0]) else s[0]] + Title(s[1..], false)
  }

  function DisplayName(prefix: string): string {
    var clean := if prefix != [] && prefix[|prefix| - 1] == '_' then prefix[..|prefix| - 1] else prefix;
    Title(clean, true)
  }

  /** Character by character: the first letter of every part is a capital, an underscore is a space. */
  lemma {:induction false} TitleAt(s: string, atStart: bool, i: nat)
    requires i < |s|
    ensures |Title(s, atStart)| == |s|
    ensures Title(s, atStart)[i] ==
            if s[i] == '_' then ' '
            else if (if i == 0 then atStart else s[i - 1] == '_') then Upper(s[i])
            else s[i]
  {
    if |s| == 1 {
    } else {
      TitleAt(s[1..], s[0] == '_', if i == 0 then 0 else i - 1);
    }
  }

  /** A display name, read off the prefix without its closing underscore. */
  lemma DisplayNameAt(prefix: string, i: nat)
    requires prefix != [] && prefix[|prefix| - 1] == '_' && i < |prefix| - 1
    ensures |DisplayName(prefix)| == |prefix| - 1
    ensures DisplayName(prefix)[i] ==
            if prefix[i] == '_' then ' '
            else if i == 0 || prefix[i - 1] == '_' then Upper(prefix[i])
            else prefix[i]
  {
    TitleAt(prefix[..|prefix| - 1], true, i);
  }

  function Detail(latest: Snapshot, history: History, name: string): MetricDetail
    requires name in latest
  {
    MetricDetail(name, latest[name].help, latest[name].kind, latest[name].samples, history(name))
  }

  // ---------------------------------------------------------------- what an answer is

  function MetricName(): MetricDetail -> string {
    (d: MetricDetail) => d.name
  }

  function GroupName(): MetricGroup -> string {
    (g: MetricGroup) => g.name
  }

  /** A group: all metrics of its prefix, each once, sorted by name, under the prefix's display name. */
  ghost predicate GroupOf(latest: Snapshot, history: History, g: MetricGroup) {
    && g.name == DisplayName(g.prefix)
    && g.metrics != []
    && StrictlySorted(g.metrics, ByKey(MetricName()))
    && forall d :: d in g.metrics <==>
                   d.name in latest && MetricPrefix(d.name) == g.prefix && d == Detail(latest, history, d.name)
  }

  /** Every metric is in the one group of its prefix, and the groups are sorted by display name. */
  ghost predicate IsGrouping(latest: Snapshot, history: History, groups: seq<MetricGroup>) {
    && (forall g :: g in groups ==> GroupOf(latest, history, g))
    && (forall i, j :: 0 <= i < j < |groups| ==> groups[i].prefix != groups[j].prefix)
    && (forall n :: n in latest ==> exists g :: g in groups && g.prefix == MetricPrefix(n))
    && Sorted(groups, ByKey(GroupName()))
  }

  // ---------------------------------------------------------------- the grouping

  /** The details collected so far: exactly those of the visited metrics, each once, under their prefix. */
  ghost predicate Collected(latest: Snapshot, history: History, visited: set<string>,
                            grouped: map<string, seq<MetricDetail>>) {
    && visited <= latest.Keys
    && (forall p :: p in grouped ==> grouped[p] != [])
    && (forall p, d :: p in grouped ==>
          (d in grouped[p] <==> d.name in visited && MetricPrefix(d.name) == p && d == Detail(latest, history, d.name)))
    && (forall p, i, j :: p in grouped && 0 <= i < j < |grouped[p]| ==> grouped[p][i].name != grouped[p][j].name)
    && (forall n :: n in visited ==> MetricPrefix(n) in grouped)
  }

  lemma CollectOne(latest: Snapshot, history: History, visited: set<string>, grouped: map<string, seq<MetricDetail>>,
                   name: string)
    requires Collected(latest, history, visited, grouped) && name in latest && name !in visited
    ensures var p := MetricPrefix(name);
            Collected(latest, history, visited + {name},
                      grouped[p := (if p in grouped then grouped[p] else []) + [Detail(latest, history, name)]])
  {
    var p := MetricPrefix(name);
    var before := if p in grouped then grouped[p] else [];
    var after := before + [Detail(latest, history, name)];
    var next := grouped[p := after];
    forall d ensures d in after <==> d in before || d == Detail(latest, history, name) {
    }
    forall i | 0 <= i < |before| ensures before[i].name != name {
      assert before[i] in before;
    }
    forall q, d: MetricDetail | q in next
      ensures d in next[q] <==>
              d.name in visited + {name} && MetricPrefix(d.name) == q && d == Detail(latest, history, d.name)
    {
      if q == p {
        assert p !in grouped ==> d !in before && !(d.name in visited && MetricPrefix(d.name) == p);
      }
    }
  }

  method GroupMetrics(latest: Snapshot, history: History) returns (groups: seq<MetricGroup>)
    ensures IsGrouping(latest, history, groups)
  {
    var grouped: map<string, seq<MetricDetail>> := map[];
    var todo := latest.Keys;
    while todo != {}
      invariant todo <= latest.Keys
      invariant Collected(latest, history, latest.Keys - todo, grouped)
      decreases |todo|
    {
      var name :| name in todo;
      var prefix := MetricPrefix(name);
      CollectOne(latest, history, latest.Keys - todo, grouped, name);
      assert latest.Keys - (todo - {name}) == (latest.Keys - todo) + {name};
      var details := if prefix in grouped then grouped[prefix] else [];
      grouped := grouped[prefix := details + [Detail(latest, history, name)]];
      todo := todo - {name};
    }
    var unsorted := BuildGroups(latest, history, grouped);
    GroupsMeaning(latest, history, unsorted, grouped.Keys);
    OrderByKey(GroupName());
    groups := Sort(unsorted, ByKey(GroupName()));
    SameElements(groups, unsorted);
    PrefixesStayDistinct(unsorted, groups);
  }

  /** The groups of exactly these prefixes, each once. */
  ghost predicate GroupsOf(latest: Snapshot, history: History, groups: seq<MetricGroup>, prefixes: set<string>) {
    if groups == [] then prefixes == {}
    else
      var n := |groups| - 1;
      && GroupOf(latest, history, groups[n])
      && groups[n].prefix in prefixes
      && GroupsOf(latest, history, groups[..n], prefixes - {groups[n].prefix})
  }

  lemma GroupsAppend(latest: Snapshot, history: History, groups: seq<MetricGroup>, prefixes: set<string>,
                     g: MetricGroup)
    requires GroupsOf(latest, history, groups, prefixes) && GroupOf(latest, history, g) && g.prefix !in prefixes
    ensures GroupsOf(latest, history, groups + [g], prefixes + {g.prefix})
  {
    assert (groups + [g])[..|groups|] == groups;
    assert prefixes + {g.prefix} - {g.prefix} == prefixes;
  }

  lemma {:induction false} GroupsMeaning(latest: Snapshot, history: History, groups: seq<MetricGroup>,
                                         prefixes: set<string>)
    requires GroupsOf(latest, history, groups, prefixes)
    ensures forall g :: g in groups ==> GroupOf(latest, history, g) && g.prefix in prefixes
    ensures forall p :: p in prefixes ==> exists g :: g in groups && g.prefix == p
    ensures forall i, j :: 0 <= i < j < |groups| ==> groups[i].prefix != groups[j].prefix
  {
    if groups == [] {
    } else {
      var n := |groups| - 1;
      var last := groups[n];
      GroupsMeaning(latest, history, groups[..n], prefixes - {last.prefix});
      assert groups == groups[..n] + [last];
      forall p | p in prefixes ensures exists g :: g in groups && g.prefix == p {
        if p != last.prefix {
          assert p in prefixes - {last.prefix};
          var g :| g in groups[..n] && g.prefix == p;
          assert g in groups;
        }
      }
      forall i | 0 <= i < n ensures groups[i].prefix != last.prefix {
        assert groups[i] in groups[..n];
      }
    }
  }

  method SortGroup(latest: Snapshot, history: History, visited: set<string>, grouped: map<string, seq<MetricDetail>>,
                   prefix: string)
    returns (g: MetricGroup)
    requires Collected(latest, history, visited, grouped) && visited == latest.Keys && prefix in grouped
    ensures GroupOf(latest, history, g) && g.prefix == prefix
  {
    OrderByKey(MetricName());
    var details := Sort(grouped[prefix], ByKey(MetricName()));
    SortedApartIsStrict(grouped[prefix], details, ByKey(MetricName()));
    SameElements(details, grouped[prefix]);
    g := MetricGroup(DisplayName(prefix), prefix, details);
  }

  /** One sorted group for every prefix, in whatever order the map is walked. */
  method BuildGroups(latest: Snapshot, history: History, grouped: map<string, seq<MetricDetail>>)
    returns (groups: seq<MetricGroup>)
    requires Collected(latest, history, latest.Keys, grouped)
    ensures GroupsOf(latest, history, groups, grouped.Keys)
  {
    groups := [];
    var todo := grouped.Keys;
    ghost var done: set<string> := {};
    while todo != {}
      invariant done !! todo && done + todo == grouped.Keys
      invariant GroupsOf(latest, history, groups, done)
      decreases |todo|
    {
      var prefix :| prefix in todo;
      var g := SortGroup(latest, history, latest.Keys, grouped, prefix);
      GroupsAppend(latest, history, groups, done, g);
      groups := groups + [g];
      todo, done := todo - {prefix}, done + {prefix};
    }
    assert done == grouped.Keys;
  }

  function Prefix(): MetricGroup -> string {
    (g: MetricGroup) => g.prefix
  }

  lemma PrefixesStayDistinct(a: seq<MetricGroup>, b: seq<MetricGroup>)
    requires multiset(a) == multiset(b)
    requires forall i, j :: 0 <= i < j < |a| ==> a[i].prefix != a[j].prefix
    ensures forall i, j :: 0 <= i < j < |b| ==> b[i].prefix != b[j].prefix
  {
    OrderByKey(Prefix());
    SameElements(a, b);
    forall i, j | 0 <= i < j < |b| ensures b[i].prefix != b[j].prefix {
      ApartOnce(a, ByKey(Prefix()), b[i]);
      Twice(b, i, j);
      assert b[i] in a && b[j] in a;
      var k :| 0 <= k < |a| && a[k] == b[i];
      var l :| 0 <= l < |a| && a[l] == b[j];
      assert k != l;
    }
  }

  // ---------------------------------------------------------------- what an answer says

  /** Every scraped metric is shown with its name, help text, type, samples and history, in the group of its prefix. */
  lemma MetricIsShown(latest: Snapshot, history: History, groups: seq<MetricGroup>, name: string)
    returns (g: MetricGroup, d: MetricDetail)
    requires IsGrouping(latest, history, groups) && name in latest
    ensures g in groups && g.prefix == MetricPrefix(name) && g.name == DisplayName(g.prefix) && d in g.metrics
    ensures d.name == name && d.help == latest[name].help && d.kind == latest[name].kind
    ensures d.current == latest[name].samples && d.history == history(name)
  {
    g :| g in groups && g.prefix == MetricPrefix(name);
    d := Detail(latest, history, name);
    assert GroupOf(latest, history, g);
  }

  /** Nothing else is shown, and groups and metrics stand in the order of their names. */
  lemma AnswerInOrder(latest: Snapshot, history: History, groups: seq<MetricGroup>)
    requires IsGrouping(latest, history, groups)
    ensures forall g, d :: g in groups && d in g.metrics ==> d.name in latest
    ensures forall i, j :: 0 <= i < j < |groups| ==> !StringLess(groups[j].name, groups[i].name)
    ensures forall g, i, j :: g in groups && 0 <= i < j < |g.metrics| ==>
              StringLess(g.metrics[i].name, g.metrics[j].name)
  {
    forall g, i, j | g in groups && 0 <= i < j < |g.metrics|
      ensures StringLess(g.metrics[i].name, g.metrics[j].name)
    {
      assert GroupOf(latest, history, g);
      assert ByKey(MetricName())(g.metrics[i], g.metrics[j]);
    }
    forall i, j | 0 <= i < j < |groups| ensures !StringLess(groups[j].name, groups[i].name) {
      assert !ByKey(GroupName())(groups[j], groups[i]);
    }
  }

  // ---------------------------------------------------------------- when the answer is determined

  /** No two prefixes of scraped metrics share a display name. */
  ghost predicate NamesTellPrefixes(latest: Snapshot) {
    forall m, n :: m in latest && n in latest && DisplayName(MetricPrefix(m)) == DisplayName(MetricPrefix(n)) ==>
                   MetricPrefix(m) == MetricPrefix(n)
  }

  lemma GroupUnique(latest: Snapshot, history: History, g: MetricGroup, h: MetricGroup)
    requires GroupOf(latest, history, g) && GroupOf(latest, history, h) && g.prefix == h.prefix
    ensures g == h
  {
    OrderByKey(MetricName());
    StrictlySortedUnique(g.metrics, h.metrics, ByKey(MetricName()));
  }

  lemma GroupHasMetric(latest: Snapshot, history: History, g: MetricGroup) returns (n: string)
    requires GroupOf(latest, history, g)
    ensures n in latest && MetricPrefix(n) == g.prefix
  {
    assert g.metrics[0] in g.metrics;
    n := g.metrics[0].name;
  }

  lemma GroupingContains(latest: Snapshot, history: History, a: seq<MetricGroup>, b: seq<MetricGroup>, g: MetricGroup)
    requires IsGrouping(latest, history, a) && IsGrouping(latest, history, b) && g in a
    ensures g in b
  {
    var n := GroupHasMetric(latest, history, g);
    var h :| h in b && h.prefix == MetricPrefix(n);
    GroupUnique(latest, history, g, h);
  }

  lemma GroupingIsStrict(latest: Snapshot, history: History, a: seq<MetricGroup>)
    requires IsGrouping(latest, history, a) && NamesTellPrefixes(latest)
    ensures StrictlySorted(a, ByKey(GroupName()))
  {
    OrderByKey(GroupName());
    forall i, j | 0 <= i < j < |a| ensures ByKey(GroupName())(a[i], a[j]) {
      assert a[i] in a && a[j] in a;
      var m := GroupHasMetric(latest, history, a[i]);
      var n := GroupHasMetric(latest, history, a[j]);
      assert a[i].name != a[j].name;
    }
  }

  lemma GroupingUnique(latest: Snapshot, history: History, a: seq<MetricGroup>, b: seq<MetricGroup>)
    requires IsGrouping(latest, history, a) && IsGrouping(latest, history, b) && NamesTellPrefixes(latest)
    ensures a == b
  {
    forall g ensures g in a <==> g in b {
      if g in a { GroupingContains(latest, history, a, b, g); }
      if g in b { GroupingContains(latest, history, b, a, g); }
    }
    GroupingIsStrict(latest, history, a);
    GroupingIsStrict(latest, history, b);
    OrderByKey(GroupName());
    StrictlySortedUnique(a, b, ByKey(GroupName()));
  }

  /** Two groups of one display name can change places. */
  lemma SwapIsGrouping(latest: Snapshot, history: History, a: seq<MetricGroup>, i: nat, j: nat)
    requires IsGrouping(latest, history, a) && i < j < |a| && a[i].name == a[j].name
    ensures IsGrouping(latest, history, a[i := a[j]][j := a[i]]) && a[i := a[j]][j := a[i]] != a
  {
    var b := a[i := a[j]][j := a[i]];
    assert a[i].prefix != a[j].prefix;
    forall g ensures g in b <==> g in a {
      if k :| 0 <= k < |a| && a[k] == g {
        assert b[if k == i then j else if k == j then i else k] == g;
      }
    }
    OrderByKey(GroupName());
    forall k, l | 0 <= k < l < |b| ensures !ByKey(GroupName())(b[l], b[k]) {
      SortedAt(a, i, j, k, l);
    }
  }

  lemma SortedAt(a: seq<MetricGroup>, i: nat, j: nat, k: nat, l: nat)
    requires Sorted(a, ByKey(GroupName())) && i < j < |a| && a[i].name == a[j].name && k < l < |a|
    ensures var b := a[i := a[j]][j := a[i]];
            !ByKey(GroupName())(b[l], b[k])
  {
    assert !ByKey(GroupName())(a[l], a[k]);
  }

  lemma CollisionGivesAnother(latest: Snapshot, history: History, answer: seq<MetricGroup>, p: string, q: string)
    returns (other: seq<MetricGroup>)
    requires IsGrouping(latest, history, answer) && p != q && DisplayName(p) == DisplayName(q)
    requires (exists g :: g in answer && g.prefix == p) && (exists g :: g in answer && g.prefix == q)
    ensures IsGrouping(latest, history, other) && other != answer
  {
    var g :| g in answer && g.prefix == p;
    var h :| h in answer && h.prefix == q;
    var i :| 0 <= i < |answer| && answer[i] == g;
    var j :| 0 <= j < |answer| && answer[j] == h;
    var k, l := if i < j then i else j, if i < j then j else i;
    SwapIsGrouping(latest, history, answer, k, l);
    other := answer[k := answer[l]][l := answer[k]];
  }

  /** The answer to a request is determined, whatever order the maps are walked in, exactly when no two
      prefixes share a display name. */
  lemma AnswerDeterminedIff(latest: Snapshot, history: History, answer: seq<MetricGroup>)
    requires IsGrouping(latest, history, answer)
    ensures (forall other :: IsGrouping(latest, history, other) ==> other == answer) <==> NamesTellPrefixes(latest)
  {
    if NamesTellPrefixes(latest) {
      forall other | IsGrouping(latest, history, other) ensures other == answer {
        GroupingUnique(latest, history, other, answer);
      }
    } else {
      var m, n :| m in latest && n in latest && DisplayName(MetricPrefix(m)) == DisplayName(MetricPrefix(n)) &&
                  MetricPrefix(m) != MetricPrefix(n);
      var other := CollisionGivesAnother(latest, history, answer, MetricPrefix(m), MetricPrefix(n));
    }
  }

  lemma UpNames()
    ensures MetricPrefix("up") == "up_" && MetricPrefix("Up") == "Up_"
    ensures DisplayName("up_") == DisplayName("Up_") == "Up"
  {
    assert Head("p") == "p";
    assert "up_"[..2] == "up" && "Up_"[..2] == "Up";
    assert Title("p", false) == "p";
  }

  /** Every scrape with the metrics up and Up leaves the order of its groups open. */
  lemma DisplayNamesCollide(latest: Snapshot)
    requires "up" in latest && "Up" in latest
    ensures !NamesTellPrefixes(latest)
  {
    UpNames();
  }

  /** A group of one metric that no other metric of the scrape shares its prefix with. */
  lemma LoneMetric(latest: Snapshot, history: History, name: string)
    requires name in latest && forall n :: n in latest && n != name ==> MetricPrefix(n) != MetricPrefix(name)
    ensures GroupOf(latest, history, MetricGroup(DisplayName(MetricPrefix(name)), MetricPrefix(name),
                                                 [Detail(latest, history, name)]))
  {
  }

  lemma TwoGroups(latest: Snapshot, history: History, g: MetricGroup, h: MetricGroup)
    requires GroupOf(latest, history, g) && GroupOf(latest, history, h) && g.prefix != h.prefix && g.name == h.name
    requires forall n :: n in latest ==> MetricPrefix(n) == g.prefix || MetricPrefix(n) == h.prefix
    ensures IsGrouping(latest, history, [g, h])
  {
    var both := [g, h];
    assert both[0] == g && both[1] == h && g in both && h in both;
    OrderByKey(GroupName());
  }

  /** Two different answers to a request about a scrape of just these two metrics. */
  lemma TwoAnswers(latest: Snapshot, history: History) returns (a: seq<MetricGroup>, b: seq<MetricGroup>)
    requires latest.Keys == {"up", "Up"}
    ensures IsGrouping(latest, history, a) && IsGrouping(latest, history, b) && a != b
  {
    UpNames();
    LoneMetric(latest, history, "up");
    LoneMetric(latest, history, "Up");
    var g := MetricGroup("Up", "up_", [Detail(latest, history, "up")]);
    var h := MetricGroup("Up", "Up_", [Detail(latest, history, "Up")]);
    TwoGroups(latest, history, g, h);
    TwoGroups(latest, history, h, g);
    a, b := [g, h], [h, g];
    assert a[0] != b[0];
  }
}
