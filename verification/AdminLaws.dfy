/**
 What an admin request answers and does, in terms a caller can check (internal/api/handlers/admin.go).
 */
module AdminLaws {
  import opened Wrappers
  import opened Clusters
  import opened Admin
  import opened AdminRuns
  import D = DynamicConfig

  /** What is stored for a request under a name: all its settings and an empty SerDe section. */
  function Stored(name: string, body: ClusterRequest): ClusterConfig {
    ClusterConfig(name, body.bootstrapServers,
                  Settings(body.tls, body.sasl, body.schemaRegistryURL, body.kafkaConnect, body.ksqlURL,
                      body.metricsURL,
                           SerDeConfig("", [])))
  }

  /** The file can be read, if there is one, and written. */
  predicate DiskWorks(s: State, e: Env) {
    (s.file.Some? ==> e.disk.readOk) && e.disk.writeOk
  }

  // ---------------------------------------------------------------- when a request succeeds

  lemma AddSucceedsIff(s: State, body: ClusterRequest, e: Env)
    ensures Answer(s, Add(body), e) == Created <==>
            && e.bodyOk && body.name != "" && body.bootstrapServers != "" && (e.validate ==> e.reachable)
            && !Has(s.live, body.name) && !Has(Contents(s.file), body.name) && DiskWorks(s, e) && e.clientOk
    ensures Answer(s, Add(body), e) != Success
  {
  }

  lemma UpdateSucceedsIff(s: State, name: string, body: ClusterRequest, e: Env)
    ensures Answer(s, Update(name, body), e) == Success <==>
            && e.bodyOk && body.bootstrapServers != "" && (e.validate ==> e.reachable)
            && !Has(s.statics, name) && Has(s.live, name) && Has(Contents(s.file), name) && DiskWorks(s, e) &&
               e.clientOk
    ensures Answer(s, Update(name, body), e) != Created
  {
  }

  lemma DeleteSucceedsIff(s: State, name: string, e: Env)
    ensures Answer(s, Delete(name), e) == Success <==>
            && !Has(s.statics, name) && |s.live| > 1 && Has(s.live, name) && Has(Contents(s.file), name)
            && DiskWorks(s, e)
    ensures Answer(s, Delete(name), e) != Created
  {
  }

  // ---------------------------------------------------------------- how a request is refused

  /** Which check refuses a request: static clusters are forbidden, incomplete requests bad, a name in use or the last
      cluster a conflict, an unreachable broker a bad gateway. Whatever is refused so changes nothing. */
  lemma RefusedWith(s: State, r: Request, e: Env)
    ensures Answer(s, r, e) == Forbidden <==> !r.Add? && Has(s.statics, Target(r))
    ensures Answer(s, r, e) == BadRequest <==>
            match r
            case Add(body) => !e.bodyOk || body.name == "" || body.bootstrapServers == ""
            case Update(name, body) => !Has(s.statics, name) && (!e.bodyOk || body.bootstrapServers == "")
            case Delete(_) => false
    ensures Answer(s, r, e) == Conflict <==>
            match r
            case Add(body) => e.bodyOk && body.name != "" && body.bootstrapServers != "" && Has(s.live, body.name)
            case Update(_, _) => false
            case Delete(name) => !Has(s.statics, name) && |s.live| <= 1
    ensures Answer(s, r, e) == BadGateway <==>
            match r
            case Add(body) =>
              && e.bodyOk && body.name != "" && body.bootstrapServers != "" && !Has(s.live, body.name)
              && e.validate && !e.reachable
            case Update(name, body) =>
              !Has(s.statics, name) && e.bodyOk && body.bootstrapServers != "" && e.validate && !e.reachable
            case Delete(_) => false
    ensures Answer(s, r, e) in {Forbidden, BadRequest, Conflict, BadGateway} ==> Step(s, r, e) == s
  {
  }

  // ---------------------------------------------------------------- what a success does

  /** A successful add puts the cluster, as requested, at the end of the registry and of the file. */
  lemma AddDoes(s: State, body: ClusterRequest, e: Env)
    requires Answer(s, Add(body), e) == Created
    ensures Step(s, Add(body), e) ==
            State(s.statics, Some(Contents(s.file) + [Stored(body.name, body)]), s.live + [Stored(body.name, body)])
  {
  }

  /** A successful update puts the requested settings in the place of the old ones under the name of the URL, in the
      registry and in the file, and leaves every other name and the order alone. */
  lemma UpdateDoes(s: State, name: string, body: ClusterRequest, e: Env, n: string)
    requires Answer(s, Update(name, body), e) == Success && Distinct(s.live) && Distinct(Contents(s.file))
    ensures var next := Step(s, Update(name, body), e);
            && next.statics == s.statics
            && Names(next.live) == Names(s.live) && Names(Contents(next.file)) == Names(Contents(s.file))
            && Look(next.live, n) == (if n == name then Some(Stored(name, body)) else Look(s.live, n))
            && Look(Contents(next.file), n) == if n == name then Some(Stored(name, body)) else Look(Contents(s.file), n)
  {
    var w := Written(Update(name, body));
    assert w == Stored(name, body);
    ReplaceEntry(s.live, w);
    ReplaceEntry(Contents(s.file), w);
    LookReplaced(s.live, w, n);
    LookReplaced(Contents(s.file), w, n);
  }

  /** A successful deletion takes the name out of the registry and of the file, and leaves every other name and the
      order of the others alone. */
  lemma DeleteDoes(s: State, name: string, e: Env, n: string)
    requires Answer(s, Delete(name), e) == Success && Distinct(s.live) && Distinct(Contents(s.file))
    ensures var next := Step(s, Delete(name), e);
            && next.statics == s.statics
            && Names(next.live) == Dropped(Names(s.live), name)
            && Names(Contents(next.file)) == Dropped(Names(Contents(s.file)), name)
            && Look(next.live, n) == (if n == name then None else Look(s.live, n))
            && Look(Contents(next.file), n) == if n == name then None else Look(Contents(s.file), n)
  {
    NamesDropped(s.live, name);
    NamesDropped(Contents(s.file), name);
    LookRemoved(s.live, name, n);
    LookRemoved(Contents(s.file), name, n);
  }

  /** A start that cannot read the file goes on with the static clusters; without a file there are no others. */
  lemma LoadedWithoutFile(s: State, readable: bool)
    requires s.file.None? || !readable
    ensures Loaded(s, readable) == s.statics
  {
  }

  /** What the next start loads begins with the static clusters, and what the file adds stands in the file's order. */
  lemma LoadedInOrder(statics: seq<ClusterConfig>, file: seq<ClusterConfig>, cc: ClusterConfig)
    ensures D.Merge(statics, []) == statics
    ensures D.Merge(statics, file + [cc]) == D.Merge(statics, file) + if Has(statics, cc.name) then [] else [cc]
  {
    Snoc(file, cc);
  }
}
