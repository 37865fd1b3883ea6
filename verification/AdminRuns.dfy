/**
 Whole runs of admin requests whose client constructions may fail: when the live registry and the
 file agree in the end, name by name and altogether, and what can still be done where they do not.
 */
module AdminRuns {
  import opened Wrappers
  import opened Clusters
  import opened Admin
  import D = DynamicConfig

  function Target(r: Request): string {
    match r
    case Add(body) => body.name
    case Update(name, _) => name
    case Delete(name) => name
  }

  /** The name is live exactly as the next start would load it. */
  predicate Agrees(s: State, name: string) {
    Look(s.live, name) == Look(Loaded(s, true), name)
  }

  /** The registry does not follow the file change: the client cannot be constructed for a new or changed
      configuration, or the registry does not know the name that is updated. */
  predicate LeavesBehind(s: State, r: Request, e: Env) {
    match r
    case Add(_) => !e.clientOk
    case Update(name, _) =>
      Look(s.live, name).None? || (!e.clientOk && Look(s.live, name) != Some(Written(r)))
    case Delete(_) => false
  }

  /** Of the requests that changed the name's entry in the file, the last one left the registry behind. */
  predicate LastChangeStranded(s: State, requests: seq<(Request, Env)>, name: string) {
    if requests == [] then false
    else
      var n := |requests| - 1;
      var before, r, e := Run(s, requests[..n]), requests[n].0, requests[n].1;
      if FileChanges(before, r, e) && Target(r) == name then LeavesBehind(before, r, e)
      else LastChangeStranded(s, requests[..n], name)
  }

  // ---------------------------------------------------------------- names in order

  function Kept(names: seq<string>, keep: set<string>): seq<string> {
    if names == [] then []
    else
      var n := |names| - 1;
      if names[n] in keep then Kept(names[..n], keep) + [names[n]] else Kept(names[..n], keep)
  }

  function Dropped(names: seq<string>, x: string): seq<string> {
    if names == [] then []
    else
      var n := |names| - 1;
      if names[n] != x then Dropped(names[..n], x) + [names[n]] else Dropped(names[..n], x)
  }

  lemma KeptSnoc(names: seq<string>, x: string, keep: set<string>)
    ensures Kept(names + [x], keep) == if x in keep then Kept(names, keep) + [x] else Kept(names, keep)
  {
    assert (names + [x])[..|names|] == names;
  }

  lemma DroppedSnoc(names: seq<string>, y: string, x: string)
    ensures Dropped(names + [y], x) == if y != x then Dropped(names, x) + [y] else Dropped(names, x)
  {
    assert (names + [y])[..|names|] == names;
  }

  lemma {:induction false} KeptAll(names: seq<string>, keep: set<string>)
    requires forall x :: x in names ==> x in keep
    ensures Kept(names, keep) == names
  {
    if names == [] {
    } else {
      var n := |names| - 1;
      KeptAll(names[..n], keep);
      assert names == names[..n] + [names[n]];
    }
  }

  lemma {:induction false} KeptMore(names: seq<string>, keep: set<string>, x: string)
    requires x !in names
    ensures Kept(names, keep + {x}) == Kept(names, keep)
  {
    if names == [] {
    } else {
      KeptMore(names[..|names| - 1], keep, x);
    }
  }

  lemma {:induction false} DroppedNone(names: seq<string>, x: string)
    requires x !in names
    ensures Dropped(names, x) == names
  {
    if names == [] {
    } else {
      DroppedNone(names[..|names| - 1], x);
    }
  }

  lemma KeptDroppedStep(dropped: seq<string>, kept: seq<string>, y: string, keep: set<string>, x: string)
    requires Kept(dropped, keep - {x}) == Dropped(kept, x)
    ensures Kept(if y != x then dropped + [y] else dropped, keep - {x}) ==
            Dropped(if y in keep then kept + [y] else kept, x)
  {
    KeptSnoc(dropped, y, keep - {x});
    DroppedSnoc(kept, y, x);
  }

  /** Dropping a name before and after the selection is the same. */
  lemma {:induction false} KeptDropped(names: seq<string>, keep: set<string>, x: string)
    ensures Kept(Dropped(names, x), keep - {x}) == Dropped(Kept(names, keep), x)
  {
    if names == [] {
    } else {
      var n := |names| - 1;
      KeptDropped(names[..n], keep, x);
      KeptDroppedStep(Dropped(names[..n], x), Kept(names[..n], keep), names[n], keep, x);
    }
  }

  lemma {:induction false} NameIn(cs: seq<ClusterConfig>, name: string)
    ensures name in Names(cs) <==> Has(cs, name)
  {
    if cs == [] {
    } else {
      NameIn(Init(cs), name);
    }
  }

  lemma {:induction false} NamesDropped(cs: seq<ClusterConfig>, name: string)
    requires Distinct(cs)
    ensures Names(Without(cs, name)) == Dropped(Names(cs), name)
  {
    if cs == [] {
    } else {
      var init, last := Init(cs), Last(cs);
      NamesDropped(init, name);
      DroppedSnoc(Names(init), last.name, name);
      NameIn(init, name);
      if Has(init, name) {
        Snoc(Without(init, name), last);
      } else {
        DroppedNone(Names(init), name);
      }
    }
  }

  // ---------------------------------------------------------------- what every request keeps

  /** Names are distinct in all three lists, static clusters are live as configured, and the live names stand in
      the order in which the next start would load them. */
  ghost predicate Ordered(s: State) {
    && Distinct(s.statics) && Distinct(Contents(s.file)) && Distinct(s.live)
    && (forall n :: Has(s.statics, n) ==> Look(s.live, n) == Look(s.statics, n))
    && Names(s.live) == Kept(Names(Loaded(s, true)), ByName(s.live).Keys)
  }

  lemma LookAdded(cs: seq<ClusterConfig>, cc: ClusterConfig, n: string)
    ensures Look(cs + [cc], n) == if n == cc.name then Some(cc) else Look(cs, n)
  {
    OneMore(cs, cc);
  }

  lemma LookReplaced(cs: seq<ClusterConfig>, cc: ClusterConfig, n: string)
    requires Distinct(cs)
    ensures Look(Replaced(cs, cc.name, cc), n) == if n == cc.name && Has(cs, n) then Some(cc) else Look(cs, n)
  {
    if Has(cs, cc.name) {
      ReplaceEntry(cs, cc);
    } else {
      NoEntryKept(cs, cc.name, cc);
    }
  }

  lemma LookRemoved(cs: seq<ClusterConfig>, name: string, n: string)
    requires Distinct(cs)
    ensures Look(Without(cs, name), n) == if n == name then None else Look(cs, n)
  {
    RemoveEntry(cs, name);
  }

  lemma LookHas(cs: seq<ClusterConfig>, n: string)
    ensures Look(cs, n).Some? <==> Has(cs, n)
  {
    KeysAreNames(cs, n);
  }

  /** A name that is neither live nor in the file is new at the end of what is loaded. */
  lemma NewName(s: State, w: ClusterConfig)
    requires Ordered(s) && !Has(s.live, w.name) && !Has(Contents(s.file), w.name)
    ensures !Has(s.statics, w.name) && w.name !in Names(Loaded(s, true)) && w.name !in ByName(s.live)
    ensures D.Merge(s.statics, Contents(s.file) + [w]) == Loaded(s, true) + [w]
    ensures Distinct(Contents(s.file) + [w]) && Distinct(s.live + [w])
  {
    LookHas(s.statics, w.name);
    LookHas(s.live, w.name);
    D.MergeHas(s.statics, Contents(s.file), w.name);
    NameIn(Loaded(s, true), w.name);
    Snoc(Contents(s.file), w);
    OneMore(Contents(s.file), w);
    KeysAreNames(Contents(s.file), w.name);
    OneMore(s.live, w);
  }

  lemma AddKeepsNames(s: State, w: ClusterConfig)
    requires Ordered(s) && !Has(s.live, w.name) && !Has(Contents(s.file), w.name)
    ensures var names := Names(Loaded(s, true) + [w]);
            && Names(s.live) == Kept(names, ByName(s.live).Keys)
            && Names(s.live + [w]) == Kept(names, ByName(s.live + [w]).Keys)
  {
    var loaded, keys := Loaded(s, true), ByName(s.live).Keys;
    NewName(s, w);
    OneMore(loaded, w);
    OneMore(s.live, w);
    assert ByName(s.live + [w]).Keys == keys + {w.name};
    KeptSnoc(Names(loaded), w.name, keys);
    KeptSnoc(Names(loaded), w.name, keys + {w.name});
    KeptMore(Names(loaded), keys, w.name);
  }

  lemma AddKeepsOrdered(s: State, r: Request, e: Env)
    requires Ordered(s) && FileChanges(s, r, e) && r.Add?
    ensures Ordered(Step(s, r, e))
  {
    var w, next := Written(r), Step(s, r, e);
    NewName(s, w);
    AddKeepsNames(s, w);
    assert Loaded(next, true) == Loaded(s, true) + [w];
    forall n | Has(s.statics, n) ensures Look(next.live, n) == Look(s.statics, n) {
      LookAdded(s.live, w, n);
      LookHas(s.statics, n);
    }
  }

  lemma UpdateKeepsNames(s: State, w: ClusterConfig)
    requires Ordered(s) && !Has(s.statics, w.name) && Has(Contents(s.file), w.name)
    ensures var names := Names(D.Merge(s.statics, Replaced(Contents(s.file), w.name, w)));
            && Names(s.live) == Kept(names, ByName(s.live).Keys)
            && Names(Replaced(s.live, w.name, w)) == Kept(names, ByName(Replaced(s.live, w.name, w)).Keys)
  {
    MergeReplaced(s.statics, Contents(s.file), w);
    D.MergeDistinct(s.statics, Contents(s.file));
    D.MergeHas(s.statics, Contents(s.file), w.name);
    ReplaceEntry(Loaded(s, true), w);
    SameNames(s.live, w);
  }

  lemma SameNames(cs: seq<ClusterConfig>, w: ClusterConfig)
    requires Distinct(cs)
    ensures Distinct(Replaced(cs, w.name, w)) && Names(Replaced(cs, w.name, w)) == Names(cs)
    ensures ByName(Replaced(cs, w.name, w)).Keys == ByName(cs).Keys
  {
    if Has(cs, w.name) {
      ReplaceEntry(cs, w);
      KeysAreNames(cs, w.name);
    } else {
      NoEntryKept(cs, w.name, w);
    }
  }

  lemma UpdateKeepsOrdered(s: State, r: Request, e: Env)
    requires Ordered(s) && FileChanges(s, r, e) && r.Update?
    ensures Ordered(Step(s, r, e))
  {
    var w, next := Written(r), Step(s, r, e);
    ReplaceEntry(Contents(s.file), w);
    UpdateKeepsNames(s, w);
    SameNames(s.live, w);
    forall n | Has(s.statics, n) ensures Look(next.live, n) == Look(s.statics, n) {
      LookReplaced(s.live, w, n);
    }
  }

  lemma DeleteKeepsOrdered(s: State, r: Request, e: Env)
    requires Ordered(s) && FileChanges(s, r, e) && r.Delete?
    ensures Ordered(Step(s, r, e))
  {
    var name, next, loaded := Target(r), Step(s, r, e), Loaded(s, true);
    RemoveEntry(Contents(s.file), name);
    RemoveEntry(s.live, name);
    MergeWithout(s.statics, Contents(s.file), name);
    D.MergeDistinct(s.statics, Contents(s.file));
    NamesDropped(loaded, name);
    NamesDropped(s.live, name);
    KeptDropped(Names(loaded), ByName(s.live).Keys, name);
    assert ByName(next.live).Keys == ByName(s.live).Keys - {name};
    forall n | Has(s.statics, n) ensures Look(next.live, n) == Look(s.statics, n) {
      LookRemoved(s.live, name, n);
    }
  }

  lemma StepKeepsOrdered(s: State, r: Request, e: Env)
    requires Ordered(s)
    ensures Ordered(Step(s, r, e))
  {
    if FileChanges(s, r, e) {
      match r {
        case Add(_) => AddKeepsOrdered(s, r, e);
        case Update(_, _) => UpdateKeepsOrdered(s, r, e);
        case Delete(_) => DeleteKeepsOrdered(s, r, e);
      }
    }
  }

  lemma AgreeingIsOrdered(s: State)
    requires Consistent(s)
    ensures Ordered(s)
  {
    D.MergeDistinct(s.statics, Contents(s.file));
    forall n | Has(s.statics, n) ensures Look(s.live, n) == Look(s.statics, n) {
      D.MergeLooksUp(s.statics, Contents(s.file), n);
    }
    forall x | x in Names(s.live) ensures x in ByName(s.live) {
      NameIn(s.live, x);
      KeysAreNames(s.live, x);
    }
    KeptAll(Names(s.live), ByName(s.live).Keys);
  }

  lemma {:induction false} RunKeepsOrdered(s: State, requests: seq<(Request, Env)>)
    requires Consistent(s)
    ensures Ordered(Run(s, requests))
  {
    if requests == [] {
      AgreeingIsOrdered(s);
    } else {
      var n := |requests| - 1;
      RunKeepsOrdered(s, requests[..n]);
      StepKeepsOrdered(Run(s, requests[..n]), requests[n].0, requests[n].1);
    }
  }

  // ---------------------------------------------------------------- when live and file agree after a run

  /** A request that does not change the name's entry in the file does not change whether the name agrees. */
  lemma OthersStay(s: State, r: Request, e: Env, name: string)
    requires Ordered(s) && FileChanges(s, r, e) && Target(r) != name
    ensures Look(Contents(Step(s, r, e).file), name) == Look(Contents(s.file), name)
    ensures Look(Step(s, r, e).live, name) == Look(s.live, name)
  {
    match r {
      case Add(_) =>
        LookAdded(Contents(s.file), Written(r), name);
        LookAdded(s.live, Written(r), name);
      case Update(_, _) =>
        LookReplaced(Contents(s.file), Written(r), name);
        LookReplaced(s.live, Written(r), name);
      case Delete(target) =>
        LookRemoved(Contents(s.file), target, name);
        LookRemoved(s.live, target, name);
    }
  }

  /** A request that does change it leaves the name agreeing exactly if it does not leave the registry behind. */
  lemma TargetAgreesIff(s: State, r: Request, e: Env)
    requires Ordered(s) && FileChanges(s, r, e)
    ensures !Has(s.statics, Target(r))
    ensures Look(Step(s, r, e).live, Target(r)) == Look(Contents(Step(s, r, e).file), Target(r)) <==>
            !LeavesBehind(s, r, e)
  {
    var name := Target(r);
    LookHas(s.statics, name);
    LookHas(s.live, name);
    match r {
      case Add(_) =>
        LookAdded(Contents(s.file), Written(r), name);
        LookAdded(s.live, Written(r), name);
      case Update(_, _) =>
        LookReplaced(Contents(s.file), Written(r), name);
        LookReplaced(s.live, Written(r), name);
      case Delete(_) =>
        LookRemoved(Contents(s.file), name, name);
        LookRemoved(s.live, name, name);
    }
  }

  /** After any run from an agreeing state a name is live exactly as the next start would load it unless its last
      effective file change left the registry behind. */
  lemma {:induction false} AgreesIff(s: State, requests: seq<(Request, Env)>, name: string)
    requires Consistent(s)
    ensures Agrees(Run(s, requests), name) <==> !LastChangeStranded(s, requests, name)
  {
    if requests == [] {
    } else {
      var n := |requests| - 1;
      var before, r, e := Run(s, requests[..n]), requests[n].0, requests[n].1;
      AgreesIff(s, requests[..n], name);
      RunKeepsOrdered(s, requests[..n]);
      D.MergeLooksUp(before.statics, Contents(before.file), name);
      D.MergeLooksUp(before.statics, Contents(Step(before, r, e).file), name);
      if FileChanges(before, r, e) {
        if Target(r) == name {
          TargetAgreesIff(before, r, e);
        } else {
          OthersStay(before, r, e, name);
        }
      }
    }
  }

  /** Distinct lists with the same names in the same order and the same entries are the same. */
  lemma SameList(a: seq<ClusterConfig>, b: seq<ClusterConfig>)
    requires Distinct(a) && Distinct(b) && Names(a) == Names(b)
    requires forall n :: Look(a, n) == Look(b, n)
    ensures a == b
  {
    NamesAt(a);
    NamesAt(b);
    forall i | 0 <= i < |a| ensures a[i] == b[i] {
      EntryAt(a, i);
      EntryAt(b, i);
      assert Look(a, a[i].name) == Look(b, b[i].name);
    }
  }

  lemma AllAgreeing(s: State)
    requires Ordered(s) && forall n :: Agrees(s, n)
    ensures Consistent(s)
  {
    var loaded := Loaded(s, true);
    D.MergeDistinct(s.statics, Contents(s.file));
    forall x | x in Names(loaded) ensures x in ByName(s.live) {
      NameIn(loaded, x);
      LookHas(loaded, x);
      assert Agrees(s, x);
    }
    KeptAll(Names(loaded), ByName(s.live).Keys);
    forall n ensures Look(s.live, n) == Look(loaded, n) {
      assert Agrees(s, n);
    }
    SameList(s.live, loaded);
  }

  ghost predicate NothingLeftBehind(s: State, requests: seq<(Request, Env)>) {
    forall name :: !LastChangeStranded(s, requests, name)
  }

  /** After any run from an agreeing state, client constructions failing or not, the live list is exactly what the
      next start would load, the same entries in the same order, exactly if for no name the last effective
      file change left the registry behind. */
  lemma RunConsistentIff(s: State, requests: seq<(Request, Env)>)
    requires Consistent(s)
    ensures Consistent(Run(s, requests)) <==> NothingLeftBehind(s, requests)
  {
    var end := Run(s, requests);
    RunKeepsOrdered(s, requests);
    if Consistent(end) {
      forall name ensures !LastChangeStranded(s, requests, name) {
        AgreesIff(s, requests, name);
      }
    }
    if NothingLeftBehind(s, requests) {
      forall name ensures Agrees(end, name) {
        AgreesIff(s, requests, name);
        assert !LastChangeStranded(s, requests, name);
      }
      AllAgreeing(end);
    }
  }

  // ---------------------------------------------------------------- what can be done about a stranded add

  /** The name is in the file but not live, as an add whose client could not be constructed leaves it. */
  predicate OnlyInFile(s: State, name: string) {
    !Has(s.statics, name) && Has(Contents(s.file), name) && !Has(s.live, name)
  }

  lemma AddLeavesOnlyInFile(s: State, r: Request, e: Env)
    requires Ordered(s) && FileChanges(s, r, e) && r.Add? && !e.clientOk
    ensures OnlyInFile(Step(s, r, e), Target(r))
  {
    NewName(s, Written(r));
    Snoc(Contents(s.file), Written(r));
  }

  /** A request for the name that changes the file updates it where it is, or deletes it. */
  lemma OwnRequests(s: State, r: Request, e: Env)
    requires Ordered(s) && OnlyInFile(s, Target(r)) && FileChanges(s, r, e)
    ensures !r.Add?
    ensures OnlyInFile(Step(s, r, e), Target(r)) <==> r.Update?
  {
    var file, name := Contents(s.file), Target(r);
    if r.Update? {
      ReplaceEntry(file, Written(r));
      NoEntryKept(s.live, name, Written(r));
    } else if r.Delete? {
      RemoveEntry(file, name);
    }
  }

  lemma OtherRequests(s: State, r: Request, e: Env, name: string)
    requires Ordered(s) && OnlyInFile(s, name) && FileChanges(s, r, e) && Target(r) != name
    ensures OnlyInFile(Step(s, r, e), name)
  {
    OthersStay(s, r, e, name);
    LookHas(Contents(s.file), name);
    LookHas(s.live, name);
    LookHas(Contents(Step(s, r, e).file), name);
    LookHas(Step(s, r, e).live, name);
  }

  /** No request for the name succeeds in this state, whether or not its client can be constructed now, and only
      deleting it changes that it is in the file and not live. */
  lemma OnlyInFileStays(s: State, r: Request, e: Env, name: string)
    requires Ordered(s) && OnlyInFile(s, name)
    ensures Target(r) == name ==> !Succeeds(Answer(s, r, e))
    ensures OnlyInFile(Step(s, r, e), name) <==> !(r == Delete(name) && FileChanges(s, r, e))
  {
    if FileChanges(s, r, e) {
      if Target(r) == name {
        OwnRequests(s, r, e);
      } else {
        OtherRequests(s, r, e, name);
      }
    }
  }

  /** Deleting it takes it out of the file, so that live and file agree on it again, exactly when another deletion
      would leave a cluster and the disk works; even then the answer is an error. */
  lemma DeletingRepairsIff(s: State, name: string, e: Env)
    requires Ordered(s) && OnlyInFile(s, name)
    ensures Answer(s, Delete(name), e) == if |s.live| <= 1 then Conflict else InternalError
    ensures Agrees(Step(s, Delete(name), e), name) <==> |s.live| > 1 && DiskOk(s, e.disk)
    ensures Step(s, Delete(name), e).live == s.live
  {
    var next := Step(s, Delete(name), e);
    LookHas(s.live, name);
    LookHas(Contents(s.file), name);
    LookRemoved(Contents(s.file), name, name);
    D.MergeLooksUp(s.statics, Contents(s.file), name);
    D.MergeLooksUp(s.statics, Contents(next.file), name);
  }

  lemma {:induction false} LoneClusterStays(s: State, requests: seq<(Request, Env)>, name: string)
    requires Ordered(s) && OnlyInFile(s, name) && |s.live| <= 1
    requires forall i :: 0 <= i < |requests| ==> Target(requests[i].0) == name
    ensures Ordered(Run(s, requests)) && OnlyInFile(Run(s, requests), name) && Run(s, requests).live == s.live
  {
    if requests == [] {
    } else {
      var n := |requests| - 1;
      var before, r, e := Run(s, requests[..n]), requests[n].0, requests[n].1;
      LoneClusterStays(s, requests[..n], name);
      OnlyInFileStays(before, r, e, name);
      StepKeepsOrdered(before, r, e);
      if r.Update? {
        NoEntryKept(before.live, name, Written(r));
      }
    }
  }

  /** With a single cluster live no run of requests for the name changes anything about that: each is answered with
      an error, and the name stays in the file and out of the registry. */
  lemma LoneClusterIsNotRepaired(s: State, requests: seq<(Request, Env)>, name: string, i: nat)
    requires Ordered(s) && OnlyInFile(s, name) && |s.live| <= 1 && i < |requests|
    requires forall j :: 0 <= j < |requests| ==> Target(requests[j].0) == name
    ensures OnlyInFile(Run(s, requests), name) && Run(s, requests).live == s.live
    ensures !Succeeds(Answer(Run(s, requests[..i]), requests[i].0, requests[i].1))
  {
    LoneClusterStays(s, requests, name);
    LoneClusterStays(s, requests[..i], name);
    OnlyInFileStays(Run(s, requests[..i]), requests[i].0, requests[i].1, name);
  }
}
