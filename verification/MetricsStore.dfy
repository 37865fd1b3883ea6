/**
 The in-memory metrics time-series store (internal/metrics/store.go).

 The class appends, evicts by age and answers range queries by binary search.  Its
 specification is the log of all scrapes ever made, from which nothing is evicted.
 Times are nanoseconds; a sample value is only stored and copied.
 */
module MetricsStore {
  import opened Wrappers

  const MAX_AGE: int := 86_400_000_000_000 // 24 hours

  type Float64 = int // the bit pattern

  datatype MetricPoint = MetricPoint(time: int, value: Float64)
  datatype Sample = Sample(labels: map<string, string>, value: Float64)
  datatype MetricFamily = MetricFamily(name: string, help: string, kind: string, samples: seq<Sample>)

  type Snapshot = map<string, MetricFamily>
  type Series = map<string, map<string, seq<MetricPoint>>>

  /** One Append: the clock is read once for the points and once more for the eviction. */
  datatype Scrape = Scrape(cluster: string, snap: Snapshot, now: int, evictNow: int)

  /** All scrapes so far, the latest outermost. */
  datatype History = Start | Then(before: History, last: Scrape)

  // ---------------------------------------------------------------- the never-evicted log

  /** A scrape contributes its first sample of a metric, if it has one. */
  function NewPoint(snap: Snapshot, name: string, now: int): seq<MetricPoint> {
    if name in snap && |snap[name].samples| > 0 then [MetricPoint(now, snap[name].samples[0].value)] else []
  }

  function PointOf(scrape: Scrape, cluster: string, name: string): seq<MetricPoint> {
    if scrape.cluster == cluster then NewPoint(scrape.snap, name, scrape.now) else []
  }

  function Log(history: History, cluster: string, name: string): seq<MetricPoint> {
    match history
    case Start => []
    case Then(before, last) => Log(before, cluster, name) + PointOf(last, cluster, name)
  }

  /** The cluster's last scrape, if it has been scraped at all. */
  function LastScrape(history: History, cluster: string): Option<Scrape> {
    match history
    case Start => None
    case Then(before, last) => if last.cluster == cluster then Some(last) else LastScrape(before, cluster)
  }

  /** The linear filter: the points at or after the given time, in order. */
  function Since(points: seq<MetricPoint>, t: int): seq<MetricPoint> {
    if points == [] then []
    else
      var n := |points| - 1;
      Since(points[..n], t) + if points[n].time >= t then [points[n]] else []
  }

  /** Where the cluster's last eviction cut, if there was one. */
  function Cutoff(history: History, cluster: string): Option<int> {
    match LastScrape(history, cluster)
    case None => None
    case Some(s) => Some(s.evictNow - MAX_AGE)
  }

  function Keep(log: seq<MetricPoint>, cutoff: Option<int>): seq<MetricPoint> {
    if cutoff.None? then [] else Since(log, cutoff.value)
  }

  /** What eviction leaves of the log. */
  function Retained(history: History, cluster: string, name: string): seq<MetricPoint> {
    Keep(Log(history, cluster, name), Cutoff(history, cluster))
  }

  ghost predicate Timely(history: History, clock: int) {
    match history
    case Start => true
    case Then(before, last) => last.now <= last.evictNow <= clock && Timely(before, last.now)
  }

  predicate InTimeOrder(points: seq<MetricPoint>) {
    forall i, j :: 0 <= i < j < |points| ==> points[i].time <= points[j].time
  }

  /** A scraped metric is logged with the value of its first sample. */
  lemma ScrapeIsLogged(history: History, scrape: Scrape, name: string, first: Sample, rest: seq<Sample>)
    requires name in scrape.snap && scrape.snap[name].samples == [first] + rest
    ensures Log(Then(history, scrape), scrape.cluster, name) ==
            Log(history, scrape.cluster, name) + [MetricPoint(scrape.now, first.value)]
  {
  }

  /** Nothing else is logged: nothing for other clusters, for metrics not scraped, or for those without a sample. */
  lemma NothingElseIsLogged(history: History, scrape: Scrape, cluster: string, name: string)
    requires cluster != scrape.cluster || name !in scrape.snap || scrape.snap[name].samples == []
    ensures Log(Then(history, scrape), cluster, name) == Log(history, cluster, name)
  {
  }

  // ---------------------------------------------------------------- facts about the filter

  lemma {:induction false} SinceOfSorted(points: seq<MetricPoint>, t: int, lo: nat)
    requires lo <= |points|
    requires forall i :: 0 <= i < lo ==> points[i].time < t
    requires forall i :: lo <= i < |points| ==> points[i].time >= t
    ensures Since(points, t) == points[lo..]
  {
    if points == [] {
    } else {
      var n := |points| - 1;
      if lo <= n {
        SinceOfSorted(points[..n], t, lo);
        assert points[..n][lo..] + [points[n]] == points[lo..];
      } else {
        SinceOfSorted(points[..n], t, n);
      }
    }
  }

  lemma {:induction false} SinceAppend(a: seq<MetricPoint>, b: seq<MetricPoint>, t: int)
    ensures Since(a + b, t) == Since(a, t) + Since(b, t)
  {
    if b == [] {
      assert a + b == a;
    } else {
      var n := |b| - 1;
      assert (a + b)[..|a + b| - 1] == a + b[..n];
      SinceAppend(a, b[..n], t);
    }
  }

  /** Filtering twice is filtering at the later of the two times. */
  lemma {:induction false} SinceSince(points: seq<MetricPoint>, t: int, u: int)
    ensures Since(Since(points, t), u) == Since(points, if t < u then u else t)
  {
    if points == [] {
    } else {
      var n := |points| - 1;
      SinceSince(points[..n], t, u);
      var kept := if points[n].time >= t then [points[n]] else [];
      SinceAppend(Since(points[..n], t), kept, u);
      assert kept != [] ==> kept[..0] == [];
    }
  }

  lemma {:induction false} SinceKeepsSorted(points: seq<MetricPoint>, t: int)
    requires InTimeOrder(points)
    ensures InTimeOrder(Since(points, t))
    ensures forall p :: p in Since(points, t) ==> p in points
  {
    if points == [] {
    } else {
      var n := |points| - 1;
      SinceKeepsSorted(points[..n], t);
      forall p | p in Since(points[..n], t) ensures p in points && p.time <= points[n].time {
        assert p in points[..n];
      }
    }
  }

  lemma {:induction false} LogSorted(history: History, clock: int, cluster: string, name: string)
    requires Timely(history, clock)
    ensures InTimeOrder(Log(history, cluster, name))
    ensures forall p :: p in Log(history, cluster, name) ==> p.time <= clock
  {
    match history {
      case Start =>
      case Then(before, last) => LogSorted(before, last.now, cluster, name);
    }
  }

  lemma {:induction false} LastScrapeTimely(history: History, clock: int, cluster: string)
    requires Timely(history, clock)
    ensures var s := LastScrape(history, cluster); s.Some? ==> s.value.evictNow <= clock
    ensures LastScrape(history, cluster).None? ==> forall name :: Log(history, cluster, name) == []
  {
    match history {
      case Start =>
      case Then(before, last) => LastScrapeTimely(before, last.now, cluster);
    }
  }

  // ---------------------------------------------------------------- the store

  function Points(series: Series, cluster: string, name: string): seq<MetricPoint> {
    if cluster in series then Get(series[cluster], name) else []
  }

  function Get(named: map<string, seq<MetricPoint>>, name: string): seq<MetricPoint> {
    if name in named then named[name] else []
  }

  /** All metrics but those still to do have got their new point. */
  ghost predicate Recorded(before: map<string, seq<MetricPoint>>, named: map<string, seq<MetricPoint>>, snap: Snapshot,
                           now: int, todo: set<string>) {
    forall n :: Get(named, n) == if n in todo then Get(before, n) else Get(before, n) + NewPoint(snap, n, now)
  }

  lemma RecordOne(before: map<string, seq<MetricPoint>>, named: map<string, seq<MetricPoint>>, snap: Snapshot,
                  now: int, todo: set<string>, name: string)
    requires Recorded(before, named, snap, now, todo) && name in todo && todo <= snap.Keys
    ensures Recorded(before, if NewPoint(snap, name, now) == [] then named
                             else named[name := Get(named, name) + NewPoint(snap, name, now)], snap, now, todo - {name})
  {
    assert Get(named, name) == Get(before, name);
    assert Get(before, name) + [] == Get(before, name);
  }

  lemma NoneRecorded(named: map<string, seq<MetricPoint>>, snap: Snapshot, now: int)
    ensures Recorded(named, named, snap, now, snap.Keys)
  {
    assert forall n :: Get(named, n) + [] == Get(named, n);
  }

  lemma AllRecorded(before: map<string, seq<MetricPoint>>, named: map<string, seq<MetricPoint>>, snap: Snapshot,
                    now: int)
    requires Recorded(before, named, snap, now, {})
    ensures forall n :: Get(named, n) == Get(before, n) + NewPoint(snap, n, now)
  {
  }

  ghost predicate SeriesRetain(series: Series, history: History) {
    forall cluster, name :: Points(series, cluster, name) == Retained(history, cluster, name)
  }

  /** The latest snapshots are those of each cluster's last scrape. */
  ghost predicate LatestTracks(latest: map<string, Snapshot>, history: History) {
    forall cluster ::
      match LastScrape(history, cluster)
      case None => cluster !in latest
      case Some(s) => cluster in latest && latest[cluster] == s.snap
  }

  class Store {
    var series: Series
    var latest: map<string, Snapshot>
    ghost var history: History
    ghost var clock: int

    ghost predicate Valid()
      reads this
    {
      && Timely(history, clock)
      && SeriesRetain(series, history)
      && LatestTracks(latest, history)
    }

    constructor (ghost now: int)
      ensures Valid() && history == Start && clock == now
    {
      series := map[];
      latest := map[];
      history, clock := Start, now;
    }

    method Append(cluster: string, snap: Snapshot, now: int, evictNow: int)
      requires Valid() && clock <= now <= evictNow
      modifies this
      ensures Valid()
      ensures history == Then(old(history), Scrape(cluster, snap, now, evictNow)) && clock == evictNow
    {
      ghost var scrape := Scrape(cluster, snap, now, evictNow);
      latest := latest[cluster := snap];
      if cluster !in series {
        series := series[cluster := map[]];
      }
      Record(cluster, snap, now);
      ghost var recorded := series;
      Evict(cluster, evictNow);

      AppendKeepsSeries(old(series), recorded, series, history, clock, scrape);
      AppendKeepsLatest(old(latest), latest, history, scrape);
      history, clock := Then(history, scrape), evictNow;
    }

    /** Appends one point for every scraped metric that has a sample. */
    method Record(cluster: string, snap: Snapshot, now: int)
      requires cluster in series
      modifies this`series
      ensures cluster in series
      ensures forall c, n :: c != cluster ==> Points(series, c, n) == Points(old(series), c, n)
      ensures forall n :: Points(series, cluster, n) ==
                          Points(old(series), cluster, n) + NewPoint(snap, n, now)
    {
      var named, todo := series[cluster], snap.Keys;
      ghost var before := named;
      NoneRecorded(before, snap, now);
      while todo != {}
        invariant todo <= snap.Keys
        invariant Recorded(before, named, snap, now, todo)
        decreases |todo|
        modifies {}
      {
        var name :| name in todo;
        RecordOne(before, named, snap, now, todo, name);
        if |snap[name].samples| > 0 {
          named := named[name := Get(named, name) + [MetricPoint(now, snap[name].samples[0].value)]];
        }
        todo := todo - {name};
      }
      assert forall n :: Get(named, n) == Get(before, n) + NewPoint(snap, n, now) by {
        AllRecorded(before, named, snap, now);
      }
      series := series[cluster := named];
    }

    method Evict(cluster: string, now: int)
      requires cluster in series
      modifies this`series
      ensures forall c, n :: c != cluster ==> Points(series, c, n) == Points(old(series), c, n)
      ensures forall n :: Points(series, cluster, n) == Suffix(Points(old(series), cluster, n), now - MAX_AGE)
    {
      var cutoff := now - MAX_AGE;
      var named, todo := series[cluster], series[cluster].Keys;
      ghost var before := named;
      while todo != {}
        invariant todo <= named.Keys == before.Keys
        invariant forall n :: Get(named, n) == if n in todo then Get(before, n) else Suffix(Get(before, n), cutoff)
        decreases |todo|
        modifies {}
      {
        var name :| name in todo;
        var lo := CountBefore(named[name], cutoff);
        if lo > 0 {
          named := named[name := named[name][lo..]];
        }
        todo := todo - {name};
      }
      series := series[cluster := named];
    }

    method CountBefore(points: seq<MetricPoint>, cutoff: int) returns (lo: nat)
      ensures lo <= |points| && Suffix(points, cutoff) == points[lo..]
      ensures lo == 0 ==> Suffix(points, cutoff) == points
    {
      lo := 0;
      while lo < |points| && points[lo].time < cutoff
        invariant lo <= |points|
        invariant Suffix(points, cutoff) == Suffix(points[lo..], cutoff)
      {
        lo := lo + 1;
      }
    }

    method GetLatest(cluster: string) returns (snap: Option<Snapshot>)
      requires Valid()
      ensures match LastScrape(history, cluster)
              case Some(s) => snap == Some(s.snap)
              case None => snap == None
    {
      if cluster in latest { return Some(latest[cluster]); } else { return None; }
    }

    method HasData(cluster: string) returns (ok: bool)
      requires Valid()
      ensures ok <==> cluster in Clusters(history)
    {
      LastScrapeExists(history, cluster);
      ok := cluster in latest;
    }

    /** Binary search over what is left of the log answers as a linear filter of the whole log would,
        cut off at the cluster's last eviction. */
    method QueryMetric(cluster: string, metricName: string, duration: int, now: int) returns (out: seq<MetricPoint>)
      requires Valid()
      ensures out == Visible(history, cluster, metricName, now - duration)
    {
      var points := Points(series, cluster, metricName);
      assert points == Retained(history, cluster, metricName);
      VisibleIsRetained(history, clock, cluster, metricName, now - duration);
      if |points| == 0 {
        return [];
      }
      var lo := Search(points, now - duration);
      out := points[lo..];
    }
  }

  /** The binary search of QueryMetric: where the points that are not before the cutoff begin. */
  method Search(points: seq<MetricPoint>, cutoff: int) returns (lo: nat)
    requires InTimeOrder(points)
    ensures lo <= |points| && points[lo..] == Since(points, cutoff)
  {
    lo := 0;
    var hi := |points|;
    while lo < hi
      invariant 0 <= lo <= hi <= |points|
      invariant forall i :: 0 <= i < lo ==> points[i].time < cutoff
      invariant forall i :: hi <= i < |points| ==> points[i].time >= cutoff
    {
      var mid := (lo + hi) / 2;
      if points[mid].time < cutoff {
        lo := mid + 1;
      } else {
        hi := mid;
      }
    }
    SinceOfSorted(points, cutoff, lo);
  }

  /** The points from the first one on that is not before the cutoff. */
  function Suffix(points: seq<MetricPoint>, cutoff: int): seq<MetricPoint> {
    if points != [] && points[0].time < cutoff then Suffix(points[1..], cutoff) else points
  }

  lemma {:induction false} SuffixOfSorted(points: seq<MetricPoint>, t: int)
    requires InTimeOrder(points)
    ensures Suffix(points, t) == Since(points, t)
  {
    if points == [] || points[0].time >= t {
      SinceOfSorted(points, t, 0);
    } else {
      SuffixOfSorted(points[1..], t);
      assert [points[0]] + points[1..] == points;
      SinceAppend([points[0]], points[1..], t);
      assert [points[0]][..0] == [];
    }
  }

  lemma ConcatInTimeOrder(a: seq<MetricPoint>, b: seq<MetricPoint>)
    requires InTimeOrder(a + b)
    ensures InTimeOrder(a) && InTimeOrder(b)
    ensures forall p, q :: p in a && q in b ==> p.time <= q.time
  {
    var c := a + b;
    assert forall i :: 0 <= i < |a| ==> a[i] == c[i];
    assert forall i :: 0 <= i < |b| ==> b[i] == c[|a| + i];
  }

  /** Evicting an already evicted log, with newer points added, is evicting the whole log. */
  lemma EvictTwice(log: seq<MetricPoint>, added: seq<MetricPoint>, cut: Option<int>, u: int)
    requires InTimeOrder(log + added)
    requires if cut.Some? then cut.value <= u else log == []
    ensures Suffix(Keep(log, cut) + added, u) == Since(log + added, u)
  {
    var t := if cut.Some? then cut.value else u;
    var kept := Keep(log, cut);
    assert kept == Since(log, t);
    ConcatInTimeOrder(log, added);
    SinceKeepsSorted(log, t);
    assert InTimeOrder(kept + added);
    SuffixOfSorted(kept + added, u);
    SinceAppend(kept, added, u);
    SinceAppend(log, added, u);
    SinceSince(log, t, u);
  }

  lemma AddedInTimeOrder(history: History, clock: int, scrape: Scrape, name: string)
    requires Timely(history, clock) && clock <= scrape.now
    ensures InTimeOrder(Log(history, scrape.cluster, name) + NewPoint(scrape.snap, name, scrape.now))
  {
    LogSorted(history, clock, scrape.cluster, name);
  }

  lemma CutoffBefore(history: History, clock: int, cluster: string, name: string)
    requires Timely(history, clock)
    ensures var cut := Cutoff(history, cluster);
            if cut.Some? then cut.value <= clock - MAX_AGE else Log(history, cluster, name) == []
  {
    LastScrapeTimely(history, clock, cluster);
  }

  lemma RetainedAfter(history: History, scrape: Scrape, name: string)
    ensures Retained(Then(history, scrape), scrape.cluster, name) ==
            Since(Log(history, scrape.cluster, name) + NewPoint(scrape.snap, name, scrape.now),
                  scrape.evictNow - MAX_AGE)
  {
    assert LastScrape(Then(history, scrape), scrape.cluster) == Some(scrape);
  }

  /** One Append evicts what the cluster had retained together with the new point. */
  lemma EvictionAtAppend(history: History, clock: int, scrape: Scrape, name: string)
    requires Timely(history, clock) && clock <= scrape.now <= scrape.evictNow
    ensures Retained(Then(history, scrape), scrape.cluster, name) ==
            Suffix(Retained(history, scrape.cluster, name) + NewPoint(scrape.snap, name, scrape.now),
                scrape.evictNow - MAX_AGE)
  {
    var log, added := Log(history, scrape.cluster, name), NewPoint(scrape.snap, name, scrape.now);
    AddedInTimeOrder(history, clock, scrape, name);
    CutoffBefore(history, clock, scrape.cluster, name);
    EvictTwice(log, added, Cutoff(history, scrape.cluster), scrape.evictNow - MAX_AGE);
    RetainedAfter(history, scrape, name);
  }

  lemma OtherClustersRetain(history: History, scrape: Scrape, cluster: string, name: string)
    requires cluster != scrape.cluster
    ensures Retained(Then(history, scrape), cluster, name) == Retained(history, cluster, name)
  {
    assert Log(history, cluster, name) + [] == Log(history, cluster, name);
  }

  lemma AppendKeepsSeries(before: Series, recorded: Series, after: Series, history: History, clock: int, scrape: Scrape)
    requires Timely(history, clock) && clock <= scrape.now <= scrape.evictNow
    requires SeriesRetain(before, history)
    requires forall c, n :: c != scrape.cluster ==> Points(recorded, c, n) == Points(before, c, n)
    requires forall n :: Points(recorded, scrape.cluster, n) ==
                         Points(before, scrape.cluster, n) + NewPoint(scrape.snap, n, scrape.now)
    requires forall c, n :: c != scrape.cluster ==> Points(after, c, n) == Points(recorded, c, n)
    requires forall n :: Points(after, scrape.cluster, n) ==
                         Suffix(Points(recorded, scrape.cluster, n), scrape.evictNow - MAX_AGE)
    ensures SeriesRetain(after, Then(history, scrape))
  {
    var all := Then(history, scrape);
    forall c, n ensures Points(after, c, n) == Retained(all, c, n) {
      assert Points(before, c, n) == Retained(history, c, n);
      if c == scrape.cluster {
        EvictionAtAppend(history, clock, scrape, n);
      } else {
        OtherClustersRetain(history, scrape, c, n);
      }
    }
  }

  lemma AppendKeepsLatest(before: map<string, Snapshot>, after: map<string, Snapshot>, history: History, scrape: Scrape)
    requires LatestTracks(before, history) && after == before[scrape.cluster := scrape.snap]
    ensures LatestTracks(after, Then(history, scrape))
  {
  }

  function Clusters(history: History): set<string> {
    match history
    case Start => {}
    case Then(before, last) => Clusters(before) + {last.cluster}
  }

  lemma {:induction false} LastScrapeExists(history: History, cluster: string)
    ensures LastScrape(history, cluster).Some? <==> cluster in Clusters(history)
  {
    match history {
      case Start =>
      case Then(before, last) => LastScrapeExists(before, cluster);
    }
  }

  // ---------------------------------------------------------------- what a query sees

  /** The logged points no older than the query's start and the cluster's last eviction cutoff. */
  function Visible(history: History, cluster: string, name: string, start: int): seq<MetricPoint> {
    var log := Log(history, cluster, name);
    match LastScrape(history, cluster)
    case None => Since(log, start)
    case Some(s) => Since(log, if start < s.evictNow - MAX_AGE then s.evictNow - MAX_AGE else start)
  }

  lemma VisibleIsRetained(history: History, clock: int, cluster: string, name: string, start: int)
    requires Timely(history, clock)
    ensures Visible(history, cluster, name, start) == Since(Retained(history, cluster, name), start)
    ensures InTimeOrder(Retained(history, cluster, name))
  {
    var log := Log(history, cluster, name);
    LogSorted(history, clock, cluster, name);
    LastScrapeTimely(history, clock, cluster);
    match LastScrape(history, cluster) {
      case None =>
      case Some(s) =>
        SinceSince(log, s.evictNow - MAX_AGE, start);
        SinceKeepsSorted(log, s.evictNow - MAX_AGE);
    }
  }

  /** A query that reaches back to the last scrape ends with that scrape's point, behind whatever it would have
      shown of the points before. */
  lemma LastScrapeIsSeen(history: History, clock: int, scrape: Scrape, name: string, start: int)
    requires Timely(history, clock) && clock <= scrape.now <= scrape.evictNow
    requires name in scrape.snap && scrape.snap[name].samples != []
    requires start <= scrape.now && scrape.evictNow - scrape.now <= 24 * 60 * 60 * 1_000_000_000
    ensures exists before :: Visible(Then(history, scrape), scrape.cluster, name, start) ==
                             before + [MetricPoint(scrape.now, scrape.snap[name].samples[0].value)]
  {
    var samples := scrape.snap[name].samples;
    assert samples == [samples[0]] + samples[1..];
    ScrapeIsLogged(history, scrape, name, samples[0], samples[1..]);
    var cut := scrape.evictNow - MAX_AGE;
    var from := if start < cut then cut else start;
    SinceOneMore(Log(history, scrape.cluster, name), MetricPoint(scrape.now, samples[0].value), from);
  }

  lemma SinceOneMore(points: seq<MetricPoint>, p: MetricPoint, t: int)
    requires t <= p.time
    ensures Since(points + [p], t) == Since(points, t) + [p]
  {
    assert (points + [p])[..|points|] == points;
  }

  /** A scrape followed by a query. */
  method ScrapeAndQuery(store: Store, scrape: Scrape, name: string, duration: int, now: int)
    returns (out: seq<MetricPoint>)
    requires store.Valid() && store.clock <= scrape.now <= scrape.evictNow <= now
    requires name in scrape.snap && scrape.snap[name].samples != []
    requires now - duration <= scrape.now && scrape.evictNow - scrape.now <= 24 * 60 * 60 * 1_000_000_000
    modifies store
    ensures store.Valid()
    ensures |out| > 0 && out[|out| - 1] == MetricPoint(scrape.now, scrape.snap[name].samples[0].value)
  {
    LastScrapeIsSeen(store.history, store.clock, scrape, name, now - duration);
    store.Append(scrape.cluster, scrape.snap, scrape.now, scrape.evictNow);
    out := store.QueryMetric(scrape.cluster, name, duration, now);
  }

  /** Eviction shows in a query exactly when a logged point falls between the query's start and the last cutoff. */
  lemma EvictionShowsIff(history: History, cluster: string, name: string, start: int)
    ensures Visible(history, cluster, name, start) != Since(Log(history, cluster, name), start) <==>
            LastScrape(history, cluster).Some? &&
            exists p :: p in Log(history, cluster, name) &&
                start <= p.time < LastScrape(history, cluster).value.evictNow - MAX_AGE
  {
    var log := Log(history, cluster, name);
    match LastScrape(history, cluster) {
      case None =>
      case Some(s) => if start < s.evictNow - MAX_AGE { SinceDiffer(log, start, s.evictNow - MAX_AGE); }
    }
  }

  lemma {:induction false} SinceDiffer(points: seq<MetricPoint>, t: int, u: int)
    requires t <= u
    ensures |Since(points, u)| <= |Since(points, t)|
    ensures Since(points, t) != Since(points, u) <==> |Since(points, u)| < |Since(points, t)|
    ensures Since(points, t) != Since(points, u) <==> exists p :: p in points && t <= p.time < u
  {
    if points == [] {
    } else {
      var n := |points| - 1;
      SinceDiffer(points[..n], t, u);
      assert points == points[..n] + [points[n]];
    }
  }

  /** The query answers as the linear filter of the never-evicted log would. */
  predicate SeesAll(history: History, now: int, cluster: string, name: string, duration: int) {
    Visible(history, cluster, name, now - duration) == Since(Log(history, cluster, name), now - duration)
  }

  /** Over every run on a non-decreasing clock, eviction is invisible to all queries of a duration
      exactly when that duration is at most 24 hours. */
  lemma EvictionInvisibleUpTo24h(duration: int)
    ensures (forall history, now, cluster, name ::
               Timely(history, now) ==> SeesAll(history, now, cluster, name, duration))
            <==> duration <= 24 * 60 * 60 * 1_000_000_000
  {
    if duration <= MAX_AGE {
      forall history, now, cluster, name | Timely(history, now)
        ensures SeesAll(history, now, cluster, name, duration)
      {
        LastScrapeTimely(history, now, cluster);
      }
    } else {
      var history := LongQueryLosesAPoint(duration);
    }
  }

  /** Any duration above 24 hours has a run in which a query of that duration misses a logged point. */
  lemma LongQueryLosesAPoint(duration: int) returns (history: History)
    requires duration > MAX_AGE
    ensures Timely(history, MAX_AGE + 1)
    ensures !SeesAll(history, MAX_AGE + 1, "c", "m", duration)
  {
    var first := Scrape("c", map["m" := MetricFamily("m", "", "", [Sample(map[], 0)])], 0, 0);
    var second := Scrape("c", map[], MAX_AGE + 1, MAX_AGE + 1);
    history := Then(Then(Start, first), second);
    assert MetricPoint(0, 0) in Log(history, "c", "m");
    EvictionShowsIff(history, "c", "m", MAX_AGE + 1 - duration);
  }
}
