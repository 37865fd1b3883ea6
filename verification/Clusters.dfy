/** Cluster configurations and ordered lists of them, the values that the registry, the
    dynamic file and the admin handler exchange. */
module Clusters {
  import opened Wrappers

  datatype TLSConfig = TLSConfig(enabled: bool, caFile: string)
  datatype SASLConfig = SASLConfig(mechanism: string, username: string, password: string)
  datatype ConnectConfig = ConnectConfig(name: string, url: string)
  datatype SerDeRule = SerDeRule(topicPattern: string, keyDeserializer: string, valueDeserializer: string)
  datatype SerDeConfig = SerDeConfig(default: string, rules: seq<SerDeRule>)

  datatype Settings = Settings(
    tls: TLSConfig,
    sasl: SASLConfig,
    schemaRegistryURL: string,
    kafkaConnect: seq<ConnectConfig>,
    ksqlURL: string,
    metricsURL: string,
    serde: SerDeConfig)

  datatype ClusterConfig = ClusterConfig(name: string, bootstrapServers: string, settings: Settings)

  // Lists are taken apart from the end, where they grow.

  function Init(cs: seq<ClusterConfig>): seq<ClusterConfig>
    requires cs != []
  {
    cs[..|cs| - 1]
  }

  function Last(cs: seq<ClusterConfig>): ClusterConfig
    requires cs != []
  {
    cs[|cs| - 1]
  }

  predicate Has(cs: seq<ClusterConfig>, name: string) {
    cs != [] && (Has(Init(cs), name) || Last(cs).name == name)
  }

  predicate Distinct(cs: seq<ClusterConfig>) {
    cs != [] ==> Distinct(Init(cs)) && !Has(Init(cs), Last(cs).name)
  }

  function Names(cs: seq<ClusterConfig>): seq<string> {
    if cs == [] then [] else Names(Init(cs)) + [Last(cs).name]
  }

  function ByName(cs: seq<ClusterConfig>): map<string, ClusterConfig> {
    if cs == [] then map[] else ByName(Init(cs))[Last(cs).name := Last(cs)]
  }

  /** The entry of that name, if there is one. */
  function Look(cs: seq<ClusterConfig>, name: string): Option<ClusterConfig> {
    if name in ByName(cs) then Some(ByName(cs)[name]) else None
  }

  /** The list without its first entry of that name. */
  function Without(cs: seq<ClusterConfig>, name: string): seq<ClusterConfig> {
    if cs == [] then []
    else if Has(Init(cs), name) then Without(Init(cs), name) + [Last(cs)]
    else if Last(cs).name == name then Init(cs)
    else cs
  }

  /** The list with its first entry of that name replaced where it stands. */
  function Replaced(cs: seq<ClusterConfig>, name: string, cc: ClusterConfig): seq<ClusterConfig> {
    if cs == [] then []
    else if Has(Init(cs), name) then Replaced(Init(cs), name, cc) + [Last(cs)]
    else if Last(cs).name == name then Init(cs) + [cc]
    else cs
  }

  lemma Snoc(cs: seq<ClusterConfig>, cc: ClusterConfig)
    ensures cs + [cc] != [] && Init(cs + [cc]) == cs && Last(cs + [cc]) == cc
  {
  }

  // ---------------------------------------------------------------- the functions by position

  lemma {:induction false} HasMeaning(cs: seq<ClusterConfig>, name: string)
    ensures Has(cs, name) <==> exists i :: 0 <= i < |cs| && cs[i].name == name
  {
    if cs == [] {
    } else {
      HasMeaning(Init(cs), name);
      if i :| 0 <= i < |cs| && cs[i].name == name && i != |cs| - 1 {
        assert Init(cs)[i].name == name;
      }
      if i :| 0 <= i < |Init(cs)| && Init(cs)[i].name == name {
        assert cs[i].name == name;
      }
    }
  }

  lemma {:induction false} WithoutFirst(cs: seq<ClusterConfig>, k: nat)
    requires k < |cs| && forall i :: 0 <= i < k ==> cs[i].name != cs[k].name
    ensures Without(cs, cs[k].name) == cs[..k] + cs[k + 1..]
  {
    HasMeaning(Init(cs), cs[k].name);
    if k < |cs| - 1 {
      assert Init(cs)[k] == cs[k];
      WithoutFirst(Init(cs), k);
      assert Init(cs)[..k] == cs[..k] && Init(cs)[k + 1..] + [Last(cs)] == cs[k + 1..];
    } else {
      assert cs[k + 1..] == [];
    }
  }

  lemma {:induction false} ReplacedFirst(cs: seq<ClusterConfig>, k: nat, cc: ClusterConfig)
    requires k < |cs| && forall i :: 0 <= i < k ==> cs[i].name != cs[k].name
    ensures Replaced(cs, cs[k].name, cc) == cs[k := cc]
  {
    HasMeaning(Init(cs), cs[k].name);
    if k == |cs| - 1 {
    } else {
      assert Init(cs)[k] == cs[k];
      ReplacedFirst(Init(cs), k, cc);
    }
  }

  lemma NoEntry(cs: seq<ClusterConfig>, name: string)
    requires !Has(cs, name)
    ensures Without(cs, name) == cs
  {
  }

  lemma {:induction false} NamesAt(cs: seq<ClusterConfig>)
    ensures |Names(cs)| == |cs| && forall i :: 0 <= i < |cs| ==> Names(cs)[i] == cs[i].name
  {
    if cs == [] {
    } else {
      NamesAt(Init(cs));
    }
  }

  // ---------------------------------------------------------------- names and look-up under the list operations

  lemma {:induction false} KeysAreNames(cs: seq<ClusterConfig>, name: string)
    ensures name in ByName(cs) <==> Has(cs, name)
    ensures name in ByName(cs) ==> ByName(cs)[name].name == name
  {
    if cs == [] {
    } else {
      KeysAreNames(Init(cs), name);
    }
  }

  /** One more entry at the end, whether or not its name is new. */
  lemma OneMore(cs: seq<ClusterConfig>, cc: ClusterConfig)
    ensures Names(cs + [cc]) == Names(cs) + [cc.name]
    ensures ByName(cs + [cc]) == ByName(cs)[cc.name := cc]
    ensures Distinct(cs + [cc]) <==> Distinct(cs) && cc.name !in ByName(cs)
  {
    Snoc(cs, cc);
    KeysAreNames(cs, cc.name);
  }

  lemma {:induction false} EntryAt(cs: seq<ClusterConfig>, i: nat)
    requires Distinct(cs) && i < |cs|
    ensures cs[i].name in ByName(cs) && ByName(cs)[cs[i].name] == cs[i]
  {
    if i == |cs| - 1 {
    } else {
      assert Init(cs)[i] == cs[i];
      EntryAt(Init(cs), i);
      HasMeaning(Init(cs), Last(cs).name);
    }
  }

  lemma {:induction false} RemoveName(cs: seq<ClusterConfig>, name: string)
    requires Distinct(cs)
    ensures Distinct(Without(cs, name))
    ensures forall n :: Has(Without(cs, name), n) <==> Has(cs, n) && n != name
  {
    if cs == [] {
    } else {
      var init, last := Init(cs), Last(cs);
      RemoveName(init, name);
      if Has(init, name) {
        Snoc(Without(init, name), last);
      }
    }
  }

  lemma {:induction false} RemoveKey(cs: seq<ClusterConfig>, name: string)
    requires Distinct(cs)
    ensures ByName(Without(cs, name)) == ByName(cs) - {name}
  {
    if cs == [] {
    } else {
      var init, last := Init(cs), Last(cs);
      KeysAreNames(init, name);
      if Has(init, name) {
        RemoveKey(init, name);
        Snoc(Without(init, name), last);
      }
    }
  }

  lemma RemoveEntry(cs: seq<ClusterConfig>, name: string)
    requires Distinct(cs)
    ensures Distinct(Without(cs, name))
    ensures forall n :: Has(Without(cs, name), n) <==> Has(cs, n) && n != name
    ensures ByName(Without(cs, name)) == ByName(cs) - {name}
  {
    RemoveName(cs, name);
    RemoveKey(cs, name);
  }

  lemma {:induction false} ReplaceEntry(cs: seq<ClusterConfig>, cc: ClusterConfig)
    requires Distinct(cs) && Has(cs, cc.name)
    ensures Distinct(Replaced(cs, cc.name, cc))
    ensures forall n :: Has(Replaced(cs, cc.name, cc), n) <==> Has(cs, n)
    ensures ByName(Replaced(cs, cc.name, cc)) == ByName(cs)[cc.name := cc]
    ensures Names(Replaced(cs, cc.name, cc)) == Names(cs)
  {
    var init, last := Init(cs), Last(cs);
    if Has(init, cc.name) {
      ReplaceEntry(init, cc);
      Snoc(Replaced(init, cc.name, cc), last);
    } else {
      Snoc(init, cc);
    }
  }

  lemma {:induction false} NamesWithout(cs: seq<ClusterConfig>, name: string, k: nat)
    requires k < |cs| && cs[k].name == name && forall i :: 0 <= i < k ==> cs[i].name != name
    ensures |Names(cs)| == |cs|
    ensures Names(Without(cs, name)) == Names(cs)[..k] + Names(cs)[k + 1..]
  {
    WithoutFirst(cs, k);
    NamesAt(cs);
    NamesAt(Without(cs, name));
  }
}
