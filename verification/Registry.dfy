/**
 The in-memory cluster registry (internal/kafka/registry.go): two maps and an order that
 must agree, and client objects that must be closed exactly once.
 */
module Registry {
  import opened Wrappers
  import opened Clusters

  datatype Outcome = Done | AlreadyExists | NotFound | CannotRename | ClientFailed

  class Client {
    const config: ClusterConfig
    ghost var closes: nat

    constructor (config: ClusterConfig)
      ensures this.config == config && closes == 0
    {
      this.config := config;
      closes := 0;
    }

    method Close()
      modifies this
      ensures closes == old(closes) + 1
    {
      closes := closes + 1;
    }
  }

  /** The order and the map of configurations both render one list of distinct configurations. */
  ghost predicate IndexAgrees(order: seq<string>, configs: map<string, ClusterConfig>, live: seq<ClusterConfig>) {
    Distinct(live) && order == Names(live) && configs == ByName(live)
  }

  /** Both maps have the same keys, and every client was made from the recorded configuration. */
  ghost predicate Recorded(clients: map<string, Client>, configs: map<string, ClusterConfig>) {
    && (forall n :: n in clients <==> n in configs)
    && (forall n :: n in clients && n in configs ==> clients[n].config == configs[n])
  }

  lemma RecordedPut(clients: map<string, Client>, configs: map<string, ClusterConfig>, client: Client,
                    cc: ClusterConfig)
    requires Recorded(clients, configs) && client.config == cc
    ensures Recorded(clients[cc.name := client], configs[cc.name := cc])
  {
  }

  lemma RecordedDelete(clients: map<string, Client>, configs: map<string, ClusterConfig>, name: string)
    requires Recorded(clients, configs)
    ensures Recorded(clients - {name}, configs - {name})
  {
  }

  class Registry {
    var clients: map<string, Client>
    var configs: map<string, ClusterConfig>
    var order: seq<string>
    ghost var live: seq<ClusterConfig> // the configurations in registry order
    ghost var created: set<Client>     // every client this registry ever opened

    /** The client is the one held for its cluster. */
    ghost predicate Holds(c: Client)
      reads this`clients
    {
      c.config.name in clients && clients[c.config.name] == c
    }

    /** Of all clients ever opened, those held are open and the others were closed exactly once. */
    ghost predicate ClientsOwned()
      reads this`clients, this`created, created
    {
      && (forall n :: n in clients ==> clients[n] in created && clients[n].config.name == n)
      && (forall c :: c in created ==> c.closes == if Holds(c) then 0 else 1)
    }

    ghost predicate Valid()
      reads this, created
    {
      && IndexAgrees(order, configs, live)
      && Recorded(clients, configs)
      && ClientsOwned()
    }

    /** Of all clients ever opened, each is still held. */
    ghost predicate AllHeld()
      reads this`clients, this`created, created
    {
      forall c :: c in created ==> Holds(c)
    }

    ghost predicate ClientsNamed()
      reads this`clients, this`created, created
    {
      forall n :: n in clients ==> clients[n] in created && clients[n].config.name == n
    }

    /** The state while the configured clusters are entered one after the other without a look at their names. */
    ghost predicate Filling()
      reads this, created
    {
      && order == Names(live) && configs == ByName(live)
      && Recorded(clients, configs) && ClientsNamed()
      && (forall c :: c in created ==> c.closes == 0)
      && (AllHeld() <==> Distinct(live))
    }

    constructor ()
      ensures Valid() && Filling() && live == [] && created == {}
    {
      clients, configs, order := map[], map[], [];
      live, created := [], {};
    }

    method Get(name: string) returns (client: Option<Client>)
      requires Valid()
      ensures client.Some? <==> Has(live, name)
      ensures client.Some? ==> client.value.config.name == name && client.value in created && client.value.closes == 0
    {
      KeysAreNames(live, name);
      if name in clients {
        client := Some(clients[name]);
      } else {
        client := None;
      }
    }

    method ClusterCount() returns (n: nat)
      requires Valid()
      ensures n == |live|
    {
      NamesAt(live);
      n := |order|;
    }

    method List() returns (result: seq<(string, string)>)
      requires Valid()
      ensures |result| == |live|
      ensures forall i :: 0 <= i < |result| ==> result[i] == (live[i].name, live[i].bootstrapServers)
    {
      NamesAt(live);
      result := [];
      for i := 0 to |order|
        invariant |result| == i
        invariant forall k :: 0 <= k < i ==> result[k] == (live[k].name, live[k].bootstrapServers)
      {
        EntryAt(live, i);
        var cfg := configs[order[i]];
        result := result + [(cfg.name, cfg.bootstrapServers)];
      }
    }

    /** Takes over a newly opened client. */
    method Install(client: Client)
      requires ClientsOwned() && client !in created && client.closes == 0 && client.config.name !in clients
      modifies this`clients, this`created
      ensures ClientsOwned() && created == old(created) + {client}
      ensures clients == old(clients)[client.config.name := client]
    {
      clients := clients[client.config.name := client];
      created := created + {client};
    }

    /** Closes the client held under the name and forgets it. */
    method Release(name: string)
      requires ClientsOwned() && name in clients
      modifies this`clients, clients[name]
      ensures ClientsOwned() && clients == old(clients) - {name}
    {
      clients[name].Close();
      clients := clients - {name};
    }

    /** Closes the client held under the new client's name and puts the new one in its place. */
    method Swap(client: Client)
      requires ClientsOwned() && client !in created && client.closes == 0 && client.config.name in clients
      modifies this`clients, this`created, clients[client.config.name]
      ensures ClientsOwned() && created == old(created) + {client}
      ensures clients == old(clients)[client.config.name := client]
    {
      Release(client.config.name);
      Install(client);
    }

    /** Cuts the first occurrence of the name out of the order. */
    method Unlist(name: string)
      requires IndexAgrees(order, configs, live) && Has(live, name)
      modifies this`order
      ensures order == Names(Without(live, name))
    {
      NamesAt(live);
      HasMeaning(live, name);
      for i := 0 to |order|
        invariant order == Names(live)
        invariant forall j :: 0 <= j < i ==> live[j].name != name
      {
        if order[i] == name {
          NamesWithout(live, name, i);
          order := order[..i] + order[i + 1..];
          return;
        }
      }
    }

    /** Opens a client for a new name and enters it at the end of the order. */
    method Enter(cc: ClusterConfig)
      requires Valid() && !Has(live, cc.name)
      modifies this
      ensures Valid() && fresh(created - old(created)) && old(created) <= created
      ensures live == old(live) + [cc]
    {
      KeysAreNames(live, cc.name);
      Snoc(live, cc);
      var client := new Client(cc);
      RecordedPut(clients, configs, client, cc);
      Install(client);
      configs := configs[cc.name := cc];
      order, live := order + [cc.name], live + [cc];
    }

    /** Opens a client and enters it at the end of the order, pushing out a client of the same name. */
    method Load(cc: ClusterConfig)
      requires Filling()
      modifies this
      ensures Filling() && fresh(created - old(created)) && old(created) <= created
      ensures live == old(live) + [cc]
    {
      OneMore(live, cc);
      var client := new Client(cc);
      RecordedPut(clients, configs, client, cc);
      Put(client);
      configs := configs[cc.name := cc];
      order, live := order + [cc.name], live + [cc];
    }

    method Put(client: Client)
      requires ClientsNamed() && client !in created && client.closes == 0
      modifies this`clients, this`created
      ensures ClientsNamed() && created == old(created) + {client}
      ensures clients == old(clients)[client.config.name := client]
      ensures AllHeld() <==> old(AllHeld()) && client.config.name !in old(clients)
    {
      ghost var name := client.config.name;
      ghost var all := AllHeld();
      clients := clients[client.config.name := client];
      created := created + {client};
      if name in old(clients) {
        assert old(clients)[name] in created && !Holds(old(clients)[name]);
      } else if !all {
        ghost var c :| c in old(created) && !old(Holds(c));
        assert !Holds(c);
      }
    }

    /** Closes every client that is held; in a valid state that leaves every client ever opened closed once. */
    method Close()
      requires ClientsNamed()
      modifies created
      ensures forall c :: c in created ==> c.closes == old(c.closes) + if Holds(c) then 1 else 0
      ensures old(Valid()) ==> forall c :: c in created ==> c.closes == 1
    {
      var todo := clients.Keys;
      while todo != {}
        invariant todo <= clients.Keys
        invariant forall c :: c in created ==>
                    c.closes == old(c.closes) + if Holds(c) && c.config.name !in todo then 1 else 0
        decreases |todo|
      {
        var n :| n in todo;
        clients[n].Close();
        todo := todo - {n};
      }
    }

    method AddCluster(cc: ClusterConfig, clientOk: bool) returns (out: Outcome)
      requires Valid()
      modifies this
      ensures Valid() && fresh(created - old(created)) && old(created) <= created
      ensures out == if Has(old(live), cc.name) then AlreadyExists else if clientOk then Done else ClientFailed
      ensures live == if out == Done then old(live) + [cc] else old(live)
    {
      KeysAreNames(live, cc.name);
      if cc.name in clients {
        return AlreadyExists;
      }
      if !clientOk {
        return ClientFailed;
      }
      Enter(cc);
      return Done;
    }

    method RemoveCluster(name: string) returns (out: Outcome)
      requires Valid()
      modifies this, created
      ensures Valid() && created == old(created)
      ensures out == if Has(old(live), name) then Done else NotFound
      ensures live == Without(old(live), name)
    {
      KeysAreNames(live, name);
      if name !in clients {
        NoEntry(live, name);
        return NotFound;
      }
      RemoveEntry(live, name);
      RecordedDelete(clients, configs, name);
      Unlist(name);
      Release(name);
      configs, live := configs - {name}, Without(live, name);
      return Done;
    }

    method UpdateCluster(name: string, cc: ClusterConfig, clientOk: bool) returns (out: Outcome)
      requires Valid()
      modifies this, created
      ensures Valid() && fresh(created - old(created)) && old(created) <= created
      ensures out == if !Has(old(live), name) then NotFound
                     else if cc.name != name then CannotRename
                     else if clientOk then Done else ClientFailed
      ensures live == if out == Done then Replaced(old(live), name, cc) else old(live)
    {
      KeysAreNames(live, name);
      if name !in clients {
        return NotFound;
      }
      if cc.name != name {
        return CannotRename;
      }
      if !clientOk {
        return ClientFailed;
      }
      ReplaceEntry(live, cc);
      var client := new Client(cc);
      RecordedPut(clients, configs, client, cc);
      Swap(client);
      configs, live := configs[name := cc], Replaced(live, name, cc);
      return Done;
    }
  }

  /** Opens a client for every configured cluster in turn; if one cannot be opened, those held are closed.
      The names are not checked: the registry comes up in a valid state, and a failing start closes all it has
      opened, exactly when no name is repeated. */
  method NewRegistry(clusters: seq<ClusterConfig>, clientOk: seq<bool>) returns (r: Registry, ok: bool)
    requires |clientOk| == |clusters|
    ensures fresh(r) && fresh(r.created)
    ensures ok <==> forall i :: 0 <= i < |clientOk| ==> clientOk[i]
    ensures ok ==> r.live == clusters && r.order == Names(clusters) && r.configs == ByName(clusters)
    ensures ok ==> forall c :: c in r.created ==> c.closes == 0
    ensures ok ==> (r.Valid() <==> Distinct(clusters)) && (r.AllHeld() <==> Distinct(clusters))
    ensures !ok ==> r.live <= clusters && ((forall c :: c in r.created ==> c.closes == 1) <==> Distinct(r.live))
  {
    r := new Registry();
    for i := 0 to |clusters|
      invariant fresh(r) && fresh(r.created) && r.Filling()
      invariant r.live == clusters[..i]
      invariant forall k :: 0 <= k < i ==> clientOk[k]
    {
      if !clientOk[i] {
        r.Close();
        return r, false;
      }
      r.Load(clusters[i]);
      assert clusters[..i] + [clusters[i]] == clusters[..i + 1];
    }
    assert clusters[..|clusters|] == clusters;
    return r, true;
  }

  /** A cluster configured twice: the start succeeds, but one of the two clients is open and held by nobody. */
  method StartWithRepeatedName(cc: ClusterConfig) returns (r: Registry, ok: bool)
    ensures ok && r.order == [cc.name, cc.name] && !r.Valid()
    ensures exists c :: c in r.created && c.closes == 0 && !r.Holds(c)
  {
    OneMore([], cc);
    OneMore([cc], cc);
    assert [] + [cc] == [cc] && [cc] + [cc] == [cc, cc];
    r, ok := NewRegistry([cc, cc], [true, true]);
  }
}
