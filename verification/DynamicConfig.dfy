/**
 The dynamic clusters file (internal/config/dynamic.go): a persisted list that every
 operation reads, changes and writes back, and the merge at start-up
 (mergeDynamicClusters in cmd/kafkaui/main.go).

 YAML decoding gives back what was encoded; a read or a write may fail.
 */
module DynamicConfig {
  import opened Wrappers
  import opened Clusters

  datatype Outcome = Saved | ReadFailed | WriteFailed | AlreadyExists | NotFound

  /** Whether this operation's read and write of the file succeed. */
  datatype Disk = Disk(readOk: bool, writeOk: bool)

  class DynamicConfig {
    var file: Option<seq<ClusterConfig>> // None: no such file

    constructor (file: Option<seq<ClusterConfig>>)
      ensures this.file == file
    {
      this.file := file;
    }

    function Contents(): seq<ClusterConfig>
      reads this
    {
      if file.Some? then file.value else []
    }

    method Load(disk: Disk) returns (clusters: Option<seq<ClusterConfig>>)
      ensures clusters == if file.Some? && !disk.readOk then None else Some(Contents())
    {
      if file.None? {
        return Some([]);
      }
      if !disk.readOk {
        return None;
      }
      return Some(file.value);
    }

    /** Writes a temporary file and renames it: either the whole list is replaced or nothing changes. */
    method Save(clusters: seq<ClusterConfig>, disk: Disk) returns (ok: bool)
      modifies this
      ensures ok == disk.writeOk
      ensures file == if ok then Some(clusters) else old(file)
    {
      if disk.writeOk {
        file := Some(clusters);
      }
      ok := disk.writeOk;
    }

    method Add(cluster: ClusterConfig, disk: Disk) returns (out: Outcome)
      modifies this
      ensures out == if old(file).Some? && !disk.readOk then ReadFailed
                     else if Has(old(Contents()), cluster.name) then AlreadyExists
                     else if disk.writeOk then Saved else WriteFailed
      ensures file == if out == Saved then Some(old(Contents()) + [cluster]) else old(file)
    {
      var loaded := Load(disk);
      if loaded.None? {
        return ReadFailed;
      }
      var clusters := loaded.value;
      HasMeaning(clusters, cluster.name);
      for i := 0 to |clusters|
        invariant file == old(file)
        invariant forall k :: 0 <= k < i ==> clusters[k].name != cluster.name
      {
        if clusters[i].name == cluster.name {
          return AlreadyExists;
        }
      }
      var ok := Save(clusters + [cluster], disk);
      return if ok then Saved else WriteFailed;
    }

    method Update(name: string, cluster: ClusterConfig, disk: Disk) returns (out: Outcome)
      modifies this
      ensures out == if old(file).Some? && !disk.readOk then ReadFailed
                     else if !Has(old(Contents()), name) then NotFound
                     else if disk.writeOk then Saved else WriteFailed
      ensures file == if out == Saved then Some(Replaced(old(Contents()), name, cluster)) else old(file)
    {
      var loaded := Load(disk);
      if loaded.None? {
        return ReadFailed;
      }
      var clusters := loaded.value;
      HasMeaning(clusters, name);
      var found := false;
      for i := 0 to |clusters|
        invariant file == old(file) && clusters == loaded.value && !found
        invariant forall k :: 0 <= k < i ==> clusters[k].name != name
      {
        if clusters[i].name == name {
          ReplacedFirst(clusters, i, cluster);
          clusters := clusters[i := cluster];
          found := true;
          break;
        }
      }
      if !found {
        return NotFound;
      }
      var ok := Save(clusters, disk);
      return if ok then Saved else WriteFailed;
    }

    method Remove(name: string, disk: Disk) returns (out: Outcome)
      modifies this
      ensures out == if old(file).Some? && !disk.readOk then ReadFailed
                     else if !Has(old(Contents()), name) then NotFound
                     else if disk.writeOk then Saved else WriteFailed
      ensures file == if out == Saved then Some(Without(old(Contents()), name)) else old(file)
    {
      var loaded := Load(disk);
      if loaded.None? {
        return ReadFailed;
      }
      var clusters := loaded.value;
      HasMeaning(clusters, name);
      var idx := -1;
      for i := 0 to |clusters|
        invariant file == old(file) && idx == -1
        invariant forall k :: 0 <= k < i ==> clusters[k].name != name
      {
        if clusters[i].name == name {
          idx := i;
          break;
        }
      }
      if idx < 0 {
        return NotFound;
      }
      WithoutFirst(clusters, idx);
      var ok := Save(clusters[..idx] + clusters[idx + 1..], disk);
      return if ok then Saved else WriteFailed;
    }
  }

  // ---------------------------------------------------------------- what a restart loads

  /** The static clusters followed by the file entries that collide with none of them. */
  function Merge(statics: seq<ClusterConfig>, file: seq<ClusterConfig>): seq<ClusterConfig> {
    if file == [] then statics
    else Merge(statics, Init(file)) + if Has(statics, Last(file).name) then [] else [Last(file)]
  }

  /** Takes the file's entries into the configuration; an unreadable file leaves it as it is. */
  method MergeDynamicClusters(clusters: seq<ClusterConfig>, dynamicCfg: DynamicConfig, disk: Disk)
    returns (merged: seq<ClusterConfig>)
    ensures merged == if dynamicCfg.file.Some? && !disk.readOk then clusters else Merge(clusters, dynamicCfg.Contents())
  {
    var loaded := dynamicCfg.Load(disk);
    if loaded.None? || |loaded.value| == 0 {
      return clusters;
    }
    var entries := loaded.value;
    var staticSet: set<string> := {};
    for i := 0 to |clusters|
      invariant forall n :: n in staticSet <==> Has(clusters[..i], n)
    {
      Snoc(clusters[..i], clusters[i]);
      assert clusters[..i + 1] == clusters[..i] + [clusters[i]];
      staticSet := staticSet + {clusters[i].name};
    }
    assert clusters[..|clusters|] == clusters;
    merged := clusters;
    for i := 0 to |entries|
      invariant merged == Merge(clusters, entries[..i])
    {
      Snoc(entries[..i], entries[i]);
      assert entries[..i + 1] == entries[..i] + [entries[i]];
      if entries[i].name !in staticSet {
        merged := merged + [entries[i]];
      }
    }
    assert entries[..|entries|] == entries;
  }

  lemma {:induction false} MergeHas(statics: seq<ClusterConfig>, file: seq<ClusterConfig>, name: string)
    ensures Has(Merge(statics, file), name) <==> Has(statics, name) || Has(file, name)
  {
    if file == [] {
    } else {
      MergeHas(statics, Init(file), name);
      if !Has(statics, Last(file).name) {
        Snoc(Merge(statics, Init(file)), Last(file));
      } else {
        assert Merge(statics, file) == Merge(statics, Init(file));
      }
    }
  }

  /** A name is looked up among the static clusters first, and in the file if it is not there. */
  lemma {:induction false} MergeLooksUp(statics: seq<ClusterConfig>, file: seq<ClusterConfig>, name: string)
    ensures Look(Merge(statics, file), name) == if Has(statics, name) then Look(statics, name) else Look(file, name)
  {
    KeysAreNames(statics, name);
    if file == [] {
    } else {
      MergeLooksUp(statics, Init(file), name);
      if !Has(statics, Last(file).name) {
        OneMore(Merge(statics, Init(file)), Last(file));
      } else {
        assert Merge(statics, file) == Merge(statics, Init(file));
      }
    }
  }

  lemma {:induction false} MergeDistinct(statics: seq<ClusterConfig>, file: seq<ClusterConfig>)
    requires Distinct(statics) && Distinct(file)
    ensures Distinct(Merge(statics, file))
  {
    if file == [] {
    } else {
      MergeDistinct(statics, Init(file));
      MergeHas(statics, Init(file), Last(file).name);
      if !Has(statics, Last(file).name) {
        Snoc(Merge(statics, Init(file)), Last(file));
      } else {
        assert Merge(statics, file) == Merge(statics, Init(file));
      }
    }
  }
}
