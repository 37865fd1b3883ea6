/**
 Administration of dynamic clusters (internal/api/handlers/admin.go): each request changes
 the file first and the live registry second.  Requests run one after the other.

 The main question is whether a restart, which rebuilds the registry from the static
 configuration and the file, gives back what is live.
 */
module Admin {
  import opened Wrappers
  import opened Clusters
  import R = Registry
  import D = DynamicConfig

  datatype ClusterRequest = ClusterRequest(
    name: string,
    bootstrapServers: string,
    tls: TLSConfig,
    sasl: SASLConfig,
    schemaRegistryURL: string,
    kafkaConnect: seq<ConnectConfig>,
    ksqlURL: string,
    metricsURL: string)

  /** A request carries no SerDe section; the stored configuration gets an empty one. */
  function RequestToClusterConfig(req: ClusterRequest): ClusterConfig {
    ClusterConfig(req.name, req.bootstrapServers,
                  Settings(req.tls, req.sasl, req.schemaRegistryURL, req.kafkaConnect, req.ksqlURL, req.metricsURL,
                           SerDeConfig("", [])))
  }

  const NO_SETTINGS := Settings(TLSConfig(false, ""), SASLConfig("", "", ""), "", [], "", "", SerDeConfig("", []))

  /** Everything about one request that the handler does not decide: whether the body decodes, whether
      validation is asked for and succeeds, the disk, and whether a client can be constructed. */
  datatype Env = Env(bodyOk: bool, validate: bool, reachable: bool, disk: D.Disk, clientOk: bool)

  datatype Request =
    | Add(body: ClusterRequest)
    | Update(name: string, body: ClusterRequest)
    | Delete(name: string)

  datatype Status = BadRequest | Forbidden | Conflict | BadGateway | InternalError | Created | Success

  datatype State = State(statics: seq<ClusterConfig>, file: Option<seq<ClusterConfig>>, live: seq<ClusterConfig>)

  function Contents(file: Option<seq<ClusterConfig>>): seq<ClusterConfig> {
    if file.Some? then file.value else []
  }

  // ---------------------------------------------------------------- requests as steps

  predicate DiskOk(s: State, disk: D.Disk) {
    (s.file.Some? ==> disk.readOk) && disk.writeOk
  }

  predicate Checked(body: ClusterRequest, e: Env) {
    e.bodyOk && body.bootstrapServers != "" && (e.validate ==> e.reachable)
  }

  /** The configuration that an add or update writes. */
  function Written(r: Request): ClusterConfig
    requires !r.Delete?
  {
    match r
    case Add(body) => RequestToClusterConfig(body)
    case Update(name, body) => RequestToClusterConfig(body.(name := name))
  }

  /** The request passes every check and its file operation succeeds. */
  predicate FileChanges(s: State, r: Request, e: Env) {
    && DiskOk(s, e.disk)
    && match r
       case Add(body) =>
         Checked(body, e) && body.name != "" && !Has(s.live, body.name) && !Has(Contents(s.file), body.name)
       case Update(name, body) =>
         !Has(s.statics, name) && Checked(body, e) && Has(Contents(s.file), name)
       case Delete(name) =>
         !Has(s.statics, name) && |s.live| > 1 && Has(Contents(s.file), name)
  }

  function ChangedFile(s: State, r: Request): seq<ClusterConfig> {
    match r
    case Add(_) => Contents(s.file) + [Written(r)]
    case Update(name, _) => Replaced(Contents(s.file), name, Written(r))
    case Delete(name) => Without(Contents(s.file), name)
  }

  /** The registry follows only if it knows the name and can construct the client it needs. */
  function ChangedLive(s: State, r: Request, e: Env): seq<ClusterConfig> {
    match r
    case Add(_) => if e.clientOk then s.live + [Written(r)] else s.live
    case Update(name, _) => if e.clientOk then Replaced(s.live, name, Written(r)) else s.live
    case Delete(name) => Without(s.live, name)
  }

  function Step(s: State, r: Request, e: Env): State {
    if FileChanges(s, r, e) then
      State(s.statics, Some(ChangedFile(s, r)), ChangedLive(s, r, e))
    else
      s
  }

  /** The answer to a request: the first check that fails decides. */
  function Answer(s: State, r: Request, e: Env): Status {
    match r
    case Add(body) =>
      if !e.bodyOk || body.name == "" || body.bootstrapServers == "" then BadRequest
      else if Has(s.live, body.name) then Conflict
      else if e.validate && !e.reachable then BadGateway
      else if FileChanges(s, r, e) && e.clientOk then Created else InternalError
    case Update(name, body) =>
      if Has(s.statics, name) then Forbidden
      else if !e.bodyOk || body.bootstrapServers == "" then BadRequest
      else if e.validate && !e.reachable then BadGateway
      else if FileChanges(s, r, e) && Has(s.live, name) && e.clientOk then Success else InternalError
    case Delete(name) =>
      if Has(s.statics, name) then Forbidden
      else if |s.live| <= 1 then Conflict
      else if FileChanges(s, r, e) && Has(s.live, name) then Success else InternalError
  }

  // ---------------------------------------------------------------- the handler

  class AdminHandler {
    const registry: R.Registry
    const dynamicCfg: D.DynamicConfig
    const staticNames: seq<string>
    ghost const statics: seq<ClusterConfig>

    ghost predicate Valid()
      reads this, registry, registry.created
    {
      registry.Valid() && staticNames == Names(statics)
    }

    /** The state that the steps speak of. */
    ghost function Now(): State
      reads this, registry, dynamicCfg
    {
      State(statics, dynamicCfg.file, registry.live)
    }

    constructor (registry: R.Registry, dynamicCfg: D.DynamicConfig, staticNames: seq<string>,
                 ghost statics: seq<ClusterConfig>)
      requires registry.Valid() && staticNames == Names(statics)
      ensures Valid() && this.registry == registry && this.dynamicCfg == dynamicCfg && this.statics == statics
    {
      this.registry, this.dynamicCfg, this.staticNames, this.statics := registry, dynamicCfg, staticNames, statics;
    }

    method IsStatic(name: string) returns (ok: bool)
      requires staticNames == Names(statics)
      ensures ok <==> Has(statics, name)
    {
      NamesAt(statics);
      HasMeaning(statics, name);
      for i := 0 to |staticNames|
        invariant forall k :: 0 <= k < i ==> staticNames[k] != name
      {
        if staticNames[i] == name {
          return true;
        }
      }
      return false;
    }

    method AddCluster(req: ClusterRequest, e: Env) returns (status: Status)
      requires Valid()
      modifies registry, registry.created, dynamicCfg
      ensures Valid() && fresh(registry.created - old(registry.created))
      ensures Now() == Step(old(Now()), Add(req), e)
      ensures status == Answer(old(Now()), Add(req), e)
    {
      if !e.bodyOk || req.name == "" || req.bootstrapServers == "" {
        return BadRequest;
      }
      var existing := registry.Get(req.name);
      if existing.Some? {
        return Conflict;
      }
      var cc := RequestToClusterConfig(req);
      if e.validate && !e.reachable {
        return BadGateway;
      }
      var saved := dynamicCfg.Add(cc, e.disk);
      if saved != D.Saved {
        return InternalError;
      }
      var added := registry.AddCluster(cc, e.clientOk);
      if added != R.Done {
        return InternalError;
      }
      return Created;
    }

    method UpdateCluster(name: string, req: ClusterRequest, e: Env) returns (status: Status)
      requires Valid()
      modifies registry, registry.created, dynamicCfg
      ensures Valid() && fresh(registry.created - old(registry.created))
      ensures Now() == Step(old(Now()), Update(name, req), e)
      ensures status == Answer(old(Now()), Update(name, req), e)
    {
      var fixed := IsStatic(name);
      if fixed {
        return Forbidden;
      }
      if !e.bodyOk || req.bootstrapServers == "" {
        return BadRequest;
      }
      var cc := RequestToClusterConfig(req.(name := name));
      if e.validate && !e.reachable {
        return BadGateway;
      }
      var saved := dynamicCfg.Update(name, cc, e.disk);
      if saved != D.Saved {
        return InternalError;
      }
      NoEntryKept(registry.live, name, cc);
      var updated := registry.UpdateCluster(name, cc, e.clientOk);
      if updated != R.Done {
        return InternalError;
      }
      return Success;
    }

    method DeleteCluster(name: string, e: Env) returns (status: Status)
      requires Valid()
      modifies registry, registry.created, dynamicCfg
      ensures Valid() && fresh(registry.created - old(registry.created))
      ensures Now() == Step(old(Now()), Delete(name), e)
      ensures status == Answer(old(Now()), Delete(name), e)
    {
      var fixed := IsStatic(name);
      if fixed {
        return Forbidden;
      }
      var count := registry.ClusterCount();
      if count <= 1 {
        return Conflict;
      }
      var saved := dynamicCfg.Remove(name, e.disk);
      if saved != D.Saved {
        return InternalError;
      }
      var removed := registry.RemoveCluster(name);
      if removed != R.Done {
        return InternalError;
      }
      return Success;
    }

    method Handle(r: Request, e: Env) returns (status: Status)
      requires Valid()
      modifies registry, registry.created, dynamicCfg
      ensures Valid() && fresh(registry.created - old(registry.created))
      ensures Now() == Step(old(Now()), r, e) && status == Answer(old(Now()), r, e)
    {
      match r {
        case Add(body) => status := AddCluster(body, e);
        case Update(name, body) => status := UpdateCluster(name, body, e);
        case Delete(name) => status := DeleteCluster(name, e);
      }
    }

    /** Requests handled one after the other make the run of their steps. */
    method Serve(requests: seq<(Request, Env)>)
      requires Valid()
      modifies registry, registry.created, dynamicCfg
      ensures Valid() && fresh(registry.created - old(registry.created))
      ensures Now() == Run(old(Now()), requests)
    {
      for i := 0 to |requests|
        invariant Valid() && fresh(registry.created - old(registry.created))
        invariant Now() == Run(old(Now()), requests[..i])
      {
        assert requests[..i + 1][..i] == requests[..i];
        var status := Handle(requests[i].0, requests[i].1);
      }
      assert requests[..|requests|] == requests;
    }
  }

  lemma NoEntryKept(cs: seq<ClusterConfig>, name: string, cc: ClusterConfig)
    ensures !Has(cs, name) ==> Replaced(cs, name, cc) == cs
  {
  }

  // ---------------------------------------------------------------- live and file agree

  /** What a restart would build from the file is what is live. */
  predicate Consistent(s: State) {
    && Distinct(s.statics)
    && Distinct(Contents(s.file))
    && s.live == D.Merge(s.statics, Contents(s.file))
  }

  lemma {:induction false} MergeReplaced(statics: seq<ClusterConfig>, file: seq<ClusterConfig>, cc: ClusterConfig)
    requires !Has(statics, cc.name) && Has(file, cc.name)
    ensures D.Merge(statics, Replaced(file, cc.name, cc)) == Replaced(D.Merge(statics, file), cc.name, cc)
  {
    var init, last := Init(file), Last(file);
    D.MergeHas(statics, init, cc.name);
    if Has(init, cc.name) {
      MergeReplaced(statics, init, cc);
      Snoc(Replaced(init, cc.name, cc), last);
      Snoc(D.Merge(statics, init), last);
      assert D.Merge(statics, init) + [] == D.Merge(statics, init);
      assert Replaced(D.Merge(statics, init), cc.name, cc) + [] == Replaced(D.Merge(statics, init), cc.name, cc);
    } else {
      Snoc(init, cc);
      Snoc(D.Merge(statics, init), last);
    }
  }

  lemma {:induction false} MergeWithout(statics: seq<ClusterConfig>, file: seq<ClusterConfig>, name: string)
    requires !Has(statics, name) && Has(file, name)
    ensures D.Merge(statics, Without(file, name)) == Without(D.Merge(statics, file), name)
  {
    var init, last := Init(file), Last(file);
    D.MergeHas(statics, init, name);
    if Has(init, name) {
      MergeWithout(statics, init, name);
      Snoc(Without(init, name), last);
      Snoc(D.Merge(statics, init), last);
      assert D.Merge(statics, init) + [] == D.Merge(statics, init);
      assert Without(D.Merge(statics, init), name) + [] == Without(D.Merge(statics, init), name);
    } else {
      Snoc(D.Merge(statics, init), last);
    }
  }

  lemma {:induction false} ReplacedSame(cs: seq<ClusterConfig>, cc: ClusterConfig)
    requires Distinct(cs) && Has(cs, cc.name)
    ensures cc.name in ByName(cs)
    ensures Replaced(cs, cc.name, cc) == cs <==> ByName(cs)[cc.name] == cc
  {
    KeysAreNames(cs, cc.name);
    var init, last := Init(cs), Last(cs);
    assert cs == init + [last];
    if Has(init, cc.name) {
      ReplacedSame(init, cc);
      Snoc(Replaced(init, cc.name, cc), last);
      assert Init(Replaced(cs, cc.name, cc)) == Replaced(init, cc.name, cc);
    } else {
      Snoc(init, cc);
    }
  }

  /** The one branch that breaks the agreement: the file has been written and the client for a new
      configuration cannot be constructed. */
  predicate Strands(s: State, r: Request, e: Env) {
    && FileChanges(s, r, e)
    && !e.clientOk
    && match r
       case Add(_) => true
       case Update(name, _) => name in ByName(s.live) && ByName(s.live)[name] != Written(r)
       case Delete(_) => false
  }

  /** From an agreeing state a request leads to an agreeing state exactly when it does not strand. */
  lemma StepKeepsConsistentIff(s: State, r: Request, e: Env)
    requires Consistent(s)
    ensures Consistent(Step(s, r, e)) <==> !Strands(s, r, e)
  {
    var file := Contents(s.file);
    if FileChanges(s, r, e) {
      D.MergeDistinct(s.statics, file);
      match r {
        case Add(body) =>
          Snoc(file, Written(r));
          D.MergeHas(s.statics, file, body.name);
          assert |s.live + [Written(r)]| != |s.live|;
        case Update(name, body) =>
          D.MergeHas(s.statics, file, name);
          ReplaceEntry(file, Written(r));
          MergeReplaced(s.statics, file, Written(r));
          ReplacedSame(s.live, Written(r));
        case Delete(name) =>
          RemoveEntry(file, name);
          MergeWithout(s.statics, file, name);
      }
    }
  }

  predicate Succeeds(status: Status) {
    status == Created || status == Success
  }

  /** Writing an entry back as it is live leaves the file as it was, and writing any other does not. */
  lemma RewriteIsIdleIff(s: State, cc: ClusterConfig)
    requires Consistent(s) && !Has(s.statics, cc.name) && Has(Contents(s.file), cc.name)
    ensures Has(s.live, cc.name) && cc.name in ByName(s.live)
    ensures Replaced(Contents(s.file), cc.name, cc) == Contents(s.file) <==> ByName(s.live)[cc.name] == cc
  {
    D.MergeHas(s.statics, Contents(s.file), cc.name);
    D.MergeLooksUp(s.statics, Contents(s.file), cc.name);
    KeysAreNames(s.live, cc.name);
    ReplacedSame(Contents(s.file), cc);
  }

  /** A success answer leaves file and registry in agreement; an error answer means that nothing happened,
      exactly unless the request strands. */
  lemma ErrorsChangeNothingIff(s: State, r: Request, e: Env)
    requires Consistent(s)
    ensures var next := Step(s, r, e);
            if Succeeds(Answer(s, r, e)) then FileChanges(s, r, e) && Consistent(next)
            else (Contents(next.file) == Contents(s.file) && next.live == s.live) <==> !Strands(s, r, e)
  {
    StepKeepsConsistentIff(s, r, e);
    var file := Contents(s.file);
    if FileChanges(s, r, e) {
      match r {
        case Add(_) => assert |file + [Written(r)]| != |file|;
        case Update(_, _) => RewriteIsIdleIff(s, Written(r));
        case Delete(name) => D.MergeHas(s.statics, file, name);
      }
    }
  }

  // ---------------------------------------------------------------- what an update stores

  /** The request that carries everything of a configuration that a request can carry. */
  function RequestFor(cc: ClusterConfig): ClusterRequest {
    ClusterRequest(cc.name, cc.bootstrapServers, cc.settings.tls, cc.settings.sasl, cc.settings.schemaRegistryURL,
                   cc.settings.kafkaConnect, cc.settings.ksqlURL, cc.settings.metricsURL)
  }

  /** Submitting a cluster's own configuration again leaves file and registry as they are exactly when the
      configuration has no SerDe section: every other setting comes back, that one is emptied. */
  lemma ResubmittingIsIdleIff(s: State, cc: ClusterConfig, e: Env)
    requires Consistent(s) && cc.name in ByName(s.live) && ByName(s.live)[cc.name] == cc
    requires e.clientOk && FileChanges(s, Update(cc.name, RequestFor(cc)), e)
    ensures var next := Step(s, Update(cc.name, RequestFor(cc)), e);
            && (Contents(next.file) == Contents(s.file) <==> cc.settings.serde == SerDeConfig("", []))
            && (next.live == s.live <==> cc.settings.serde == SerDeConfig("", []))
            && cc.name in ByName(next.live)
            && ByName(next.live)[cc.name] == cc.(settings := cc.settings.(serde := SerDeConfig("", [])))
  {
    var w := Written(Update(cc.name, RequestFor(cc)));
    RewriteIsIdleIff(s, w);
    D.MergeDistinct(s.statics, Contents(s.file));
    ReplacedSame(s.live, w);
    ReplaceEntry(s.live, w);
  }

  /** A hand-written entry with a SerDe section, updated with its own settings, loses the section. */
  lemma SerDeIsDropped() returns (s: State, cc: ClusterConfig, e: Env)
    ensures Consistent(s) && s.live == [cc] && cc.settings.serde == SerDeConfig("avro", [])
    ensures Answer(s, Update(cc.name, RequestFor(cc)), e) == Success
    ensures Step(s, Update(cc.name, RequestFor(cc)), e).live ==
            [cc.(settings := cc.settings.(serde := SerDeConfig("", [])))]
  {
    cc := ClusterConfig("b", "host:9092", NO_SETTINGS.(serde := SerDeConfig("avro", [])));
    s := State([], Some([cc]), [cc]);
    e := Env(true, false, true, D.Disk(true, true), true);
    Snoc([], cc);
    assert [] + [cc] == [cc];
    assert Replaced([cc], "b", Written(Update("b", RequestFor(cc)))) == [Written(Update("b", RequestFor(cc)))];
  }

  // ---------------------------------------------------------------- whole runs

  function Run(s: State, requests: seq<(Request, Env)>): State {
    if requests == [] then s
    else
      var n := |requests| - 1;
      Step(Run(s, requests[..n]), requests[n].0, requests[n].1)
  }

  /** The configuration a restart begins with: an unreadable file is left out. */
  function Loaded(s: State, readable: bool): seq<ClusterConfig> {
    if s.file.Some? && !readable then s.statics else D.Merge(s.statics, Contents(s.file))
  }

  /** What the process has after a restart; it does not come up if some client cannot be constructed. */
  function Restart(s: State, readable: bool, canOpen: ClusterConfig -> bool): Option<State> {
    if forall cc :: cc in Loaded(s, readable) ==> canOpen(cc) then Some(s.(live := Loaded(s, readable))) else None
  }

  /** After any run whose client constructions succeed, a restart gives back exactly what is live:
      the same names and configurations in the same order, if their clients can be constructed again. */
  lemma {:induction false} RestartReproducesLive(s: State, requests: seq<(Request, Env)>,
                                                 canOpen: ClusterConfig -> bool)
    requires Consistent(s)
    requires forall i :: 0 <= i < |requests| ==> requests[i].1.clientOk
    ensures Consistent(Run(s, requests))
    ensures Restart(Run(s, requests), true, canOpen) ==
            if forall cc :: cc in Run(s, requests).live ==> canOpen(cc) then Some(Run(s, requests)) else None
  {
    if requests == [] {
    } else {
      var n := |requests| - 1;
      RestartReproducesLive(s, requests[..n], canOpen);
      StepKeepsConsistentIff(Run(s, requests[..n]), requests[n].0, requests[n].1);
    }
  }

  lemma {:induction false} MergeHolds(statics: seq<ClusterConfig>, file: seq<ClusterConfig>, cc: ClusterConfig)
    requires cc in file && !Has(statics, cc.name)
    ensures cc in D.Merge(statics, file)
  {
    assert file == Init(file) + [Last(file)];
    if cc !in Init(file) {
    } else {
      MergeHolds(statics, Init(file), cc);
    }
  }

  lemma {:induction false} ReplacedHolds(cs: seq<ClusterConfig>, cc: ClusterConfig)
    requires Has(cs, cc.name)
    ensures cc in Replaced(cs, cc.name, cc)
  {
    if !Has(Init(cs), cc.name) {
    } else {
      ReplacedHolds(Init(cs), cc);
    }
  }

  /** What an add or update has written is among what the next start loads. */
  lemma WrittenIsLoaded(s: State, r: Request, e: Env)
    requires Consistent(s) && FileChanges(s, r, e) && !r.Delete?
    ensures Written(r) in Loaded(Step(s, r, e), true)
  {
    var file := Contents(s.file);
    match r {
      case Add(body) =>
        D.MergeHas(s.statics, file, body.name);
        MergeHolds(s.statics, file + [Written(r)], Written(r));
      case Update(name, _) =>
        ReplacedHolds(file, Written(r));
        MergeHolds(s.statics, Replaced(file, name, Written(r)), Written(r));
    }
  }

  /** After a request that strands, a restart either does not come up at all, static clusters included, or comes
      up with something else than what was live; it does not come up while the stranded client, or any other
      that is loaded, cannot be constructed. */
  lemma StrandingShowsAtRestart(s: State, r: Request, e: Env, canOpen: ClusterConfig -> bool)
    requires Consistent(s) && Strands(s, r, e)
    ensures Answer(s, r, e) == InternalError && Step(s, r, e).live == s.live
    ensures !canOpen(Written(r)) ==> Restart(Step(s, r, e), true, canOpen) == None
    ensures Restart(Step(s, r, e), true, canOpen) != Some(Step(s, r, e))
  {
    WrittenIsLoaded(s, r, e);
    StepKeepsConsistentIff(s, r, e);
    D.MergeDistinct(s.statics, Contents(s.file));
    match r {
      case Add(_) => Snoc(Contents(s.file), Written(r));
      case Update(name, _) => ReplaceEntry(Contents(s.file), Written(r));
    }
  }

  lemma {:induction false} RemovesOne(cs: seq<ClusterConfig>, name: string)
    ensures |Without(cs, name)| >= |cs| - 1
  {
    if cs == [] {
    } else {
      RemovesOne(Init(cs), name);
    }
  }

  lemma {:induction false} ReplacesInPlace(cs: seq<ClusterConfig>, name: string, cc: ClusterConfig)
    ensures |Replaced(cs, name, cc)| == |cs|
  {
    if cs == [] {
    } else {
      ReplacesInPlace(Init(cs), name, cc);
    }
  }

  /** No run of requests, failing or not, empties the registry. */
  lemma {:induction false} NeverEmptied(s: State, requests: seq<(Request, Env)>)
    requires s.live != []
    ensures Run(s, requests).live != []
  {
    if requests == [] {
    } else {
      var n := |requests| - 1;
      NeverEmptied(s, requests[..n]);
      var before := Run(s, requests[..n]);
      match requests[n].0 {
        case Add(_) =>
        case Update(name, _) => ReplacesInPlace(before.live, name, Written(requests[n].0));
        case Delete(name) => RemovesOne(before.live, name);
      }
    }
  }

  /** The restart itself: merge the file into the static configuration and build a registry. */
  method RestartRegistry(statics: seq<ClusterConfig>, dynamicCfg: D.DynamicConfig, disk: D.Disk,
                         canOpen: ClusterConfig -> bool, ghost before: State)
    returns (r: R.Registry, ok: bool)
    requires before.statics == statics && before.file == dynamicCfg.file
    ensures ok <==> Restart(before, disk.readOk, canOpen).Some?
    ensures ok ==> r.live == Restart(before, disk.readOk, canOpen).value.live
    ensures ok ==> (r.Valid() <==> Distinct(Loaded(before, disk.readOk)))
  {
    var merged := D.MergeDynamicClusters(statics, dynamicCfg, disk);
    var clientOk := seq(|merged|, i requires 0 <= i < |merged| => canOpen(merged[i]));
    assert forall i :: 0 <= i < |merged| ==> clientOk[i] == canOpen(merged[i]) && merged[i] in merged;
    r, ok := R.NewRegistry(merged, clientOk);
  }

  /** A failed construction does strand: the added cluster is in the file, the request ends in an error, and while
      its client still cannot be constructed the next start fails and takes the static cluster with it. */
  lemma FailedClientStrands(canOpen: ClusterConfig -> bool) returns (s: State, cc: ClusterConfig, r: Request, e: Env)
    ensures Consistent(s) && s.live == s.statics == [ClusterConfig("a", "host:9092", NO_SETTINGS)]
    ensures r.Add? && Written(r) == cc && cc.settings.tls == TLSConfig(true, "missing.pem")
    ensures Answer(s, r, e) == InternalError && Step(s, r, e).live == s.live
    ensures !canOpen(cc) ==> Restart(Step(s, r, e), true, canOpen) == None
    ensures canOpen(s.live[0]) && canOpen(cc) ==>
              Restart(Step(s, r, e), true, canOpen) == Some(Step(s, r, e).(live := s.live + [cc]))
  {
    var a := ClusterConfig("a", "host:9092", NO_SETTINGS);
    s := State([a], None, [a]);
    r := Add(ClusterRequest("b", "host:9092", TLSConfig(true, "missing.pem"), SASLConfig("", "", ""), "", [], "", ""));
    e := Env(true, false, true, D.Disk(true, true), false);
    cc := Written(r);
    Snoc([], a);
    Snoc([], cc);
    assert [] + [a] == [a] && [] + [cc] == [cc];
    var none: seq<ClusterConfig> := [];
    assert Init([cc]) == none && Last([cc]) == cc && D.Merge([a], none) == [a];
    assert !Has([a], "b");
    assert D.Merge([a], [cc]) == [a] + [cc];
    StrandingShowsAtRestart(s, r, e, canOpen);
  }
}
