/**
 The offset half of ConsumerGroupDetails (internal/kafka/client.go): committed offsets grouped by
 topic, with lags, every list sorted.  The source iterates over maps, in no particular order.
 */
module ConsumerLag {
  import opened Sorting

  datatype Committed = Committed(topic: string, partition: int, at: int)
  datatype PartitionOffset = PartitionOffset(partition: int, current: int, end: int, lag: int)
  datatype TopicOffset = TopicOffset(topic: string, partitions: seq<PartitionOffset>, totalLag: int)

  type EndOffsets = map<(string, int), int>

  /** A topic and partition is committed at most once: the response is a map keyed by both. */
  predicate KeyedByPartition(cs: seq<Committed>) {
    forall i, j :: 0 <= i < j < |cs| ==> cs[i].topic != cs[j].topic || cs[i].partition != cs[j].partition
  }

  function EndOf(ends: EndOffsets, c: Committed): int {
    if (c.topic, c.partition) in ends then ends[(c.topic, c.partition)] else 0
  }

  function Info(ends: EndOffsets, c: Committed): PartitionOffset {
    var lag := EndOf(ends, c) - c.at;
    PartitionOffset(c.partition, c.at, EndOf(ends, c), if lag < 0 then 0 else lag)
  }

  function InfosOf(ends: EndOffsets, cs: seq<Committed>, topic: string): seq<PartitionOffset> {
    if cs == [] then []
    else
      var n := |cs| - 1;
      InfosOf(ends, cs[..n], topic) + if cs[n].topic == topic then [Info(ends, cs[n])] else []
  }

  function SumLag(ps: seq<PartitionOffset>): int {
    if ps == [] then 0 else SumLag(ps[..|ps| - 1]) + ps[|ps| - 1].lag
  }

  function ByPartition(): (PartitionOffset, PartitionOffset) -> bool {
    (x: PartitionOffset, y: PartitionOffset) => x.partition < y.partition
  }

  function Topic(): TopicOffset -> string {
    (t: TopicOffset) => t.topic
  }

  // ---------------------------------------------------------------- what a report is

  /** One topic's entry: all its committed partitions, each once, ascending, with the sum of their lags. */
  ghost predicate EntryOf(ends: EndOffsets, cs: seq<Committed>, e: TopicOffset) {
    && e.partitions != []
    && StrictlySorted(e.partitions, ByPartition())
    && multiset(e.partitions) == multiset(InfosOf(ends, cs, e.topic))
    && e.totalLag == SumLag(e.partitions)
  }

  /** The entries of all committed topics, strictly sorted by topic. */
  ghost predicate IsReport(ends: EndOffsets, cs: seq<Committed>, out: seq<TopicOffset>) {
    && StrictlySorted(out, ByKey(Topic()))
    && (forall e :: e in out ==> EntryOf(ends, cs, e))
    && (forall c :: c in cs ==> exists e :: e in out && e.topic == c.topic)
  }

  lemma {:induction false} InfosElements(ends: EndOffsets, cs: seq<Committed>, topic: string, p: PartitionOffset)
    ensures p in InfosOf(ends, cs, topic) <==> exists c :: c in cs && c.topic == topic && Info(ends, c) == p
  {
    if cs == [] {
    } else {
      var n := |cs| - 1;
      InfosElements(ends, cs[..n], topic, p);
      assert cs == cs[..n] + [cs[n]];
    }
  }

  lemma {:induction false} InfosApart(ends: EndOffsets, cs: seq<Committed>, topic: string)
    requires KeyedByPartition(cs)
    ensures Apart(InfosOf(ends, cs, topic), ByPartition())
  {
    if cs == [] {
    } else {
      var n := |cs| - 1;
      InfosApart(ends, cs[..n], topic);
      var before := InfosOf(ends, cs[..n], topic);
      if cs[n].topic == topic {
        forall i | 0 <= i < |before| ensures before[i].partition != cs[n].partition {
          InfosElements(ends, cs[..n], topic, before[i]);
          var c :| c in cs[..n] && c.topic == topic && Info(ends, c) == before[i];
          var k :| 0 <= k < n && cs[k] == c;
        }
      }
    }
  }

  // ---------------------------------------------------------------- the aggregation

  method Aggregate(ends: EndOffsets, cs: seq<Committed>) returns (out: seq<TopicOffset>)
    requires KeyedByPartition(cs)
    ensures IsReport(ends, cs, out)
  {
    var topicPartitions := Group(ends, cs);
    var offsets := Collect(ends, cs, topicPartitions);
    forall c | c in cs ensures c.topic in topicPartitions {
      CommittedIsGrouped(ends, cs, topicPartitions, c);
    }
    EntriesMeaning(ends, cs, offsets, topicPartitions.Keys);
    EntriesDistinct(ends, cs, offsets, topicPartitions.Keys);
    DistinctTopicsApart(offsets);
    OrderByKey(Topic());
    out := Sort(offsets, ByKey(Topic()));
    SortedApartIsStrict(offsets, out, ByKey(Topic()));
    SameElements(out, offsets);
  }

  /** The entries of exactly these topics, each once. */
  ghost predicate Entries(ends: EndOffsets, cs: seq<Committed>, offsets: seq<TopicOffset>, topics: set<string>) {
    if offsets == [] then topics == {}
    else
      var n := |offsets| - 1;
      EntryOf(ends, cs, offsets[n]) && offsets[n].topic in topics &&
          Entries(ends, cs, offsets[..n], topics - {offsets[n].topic})
  }

  lemma EntriesAppend(ends: EndOffsets, cs: seq<Committed>, offsets: seq<TopicOffset>, topics: set<string>,
                      e: TopicOffset)
    requires Entries(ends, cs, offsets, topics) && EntryOf(ends, cs, e) && e.topic !in topics
    ensures Entries(ends, cs, offsets + [e], topics + {e.topic})
  {
    assert (offsets + [e])[..|offsets|] == offsets;
    assert topics + {e.topic} - {e.topic} == topics;
  }

  lemma {:induction false} EntriesMeaning(ends: EndOffsets, cs: seq<Committed>, offsets: seq<TopicOffset>,
                                          topics: set<string>)
    requires Entries(ends, cs, offsets, topics)
    ensures forall e :: e in offsets ==> EntryOf(ends, cs, e) && e.topic in topics
    ensures forall t :: t in topics ==> exists e :: e in offsets && e.topic == t
  {
    if offsets == [] {
    } else {
      var n := |offsets| - 1;
      var last := offsets[n];
      EntriesMeaning(ends, cs, offsets[..n], topics - {last.topic});
      assert offsets == offsets[..n] + [last];
      forall t | t in topics ensures exists e :: e in offsets && e.topic == t {
        if t != last.topic {
          assert t in topics - {last.topic};
          var e :| e in offsets[..n] && e.topic == t;
          assert e in offsets;
        }
      }
    }
  }

  lemma {:induction false} EntriesDistinct(ends: EndOffsets, cs: seq<Committed>, offsets: seq<TopicOffset>,
                                           topics: set<string>)
    requires Entries(ends, cs, offsets, topics)
    ensures forall i, j :: 0 <= i < j < |offsets| ==> offsets[i].topic != offsets[j].topic
  {
    if offsets == [] {
    } else {
      var n := |offsets| - 1;
      EntriesDistinct(ends, cs, offsets[..n], topics - {offsets[n].topic});
      EntriesMeaning(ends, cs, offsets[..n], topics - {offsets[n].topic});
      forall i | 0 <= i < n ensures offsets[i].topic != offsets[n].topic {
        assert offsets[i] in offsets[..n];
      }
    }
  }

  lemma DistinctTopicsApart(offsets: seq<TopicOffset>)
    requires forall i, j :: 0 <= i < j < |offsets| ==> offsets[i].topic != offsets[j].topic
    ensures Apart(offsets, ByKey(Topic()))
  {
    OrderByKey(Topic());
  }

  /** One entry for every topic of the map, in whatever order the map is walked. */
  method Collect(ends: EndOffsets, cs: seq<Committed>, topicPartitions: map<string, seq<PartitionOffset>>)
    returns (offsets: seq<TopicOffset>)
    requires KeyedByPartition(cs) && Groups(ends, cs, topicPartitions)
    ensures Entries(ends, cs, offsets, topicPartitions.Keys)
  {
    offsets := [];
    var todo := topicPartitions.Keys;
    ghost var done: set<string> := {};
    while todo != {}
      invariant done !! todo && done + todo == topicPartitions.Keys
      invariant Entries(ends, cs, offsets, done)
      decreases |todo|
    {
      var topic :| topic in todo;
      GroupOfTopic(ends, cs, topicPartitions, topic);
      var e := Entry(ends, cs, topic, topicPartitions[topic]);
      EntriesAppend(ends, cs, offsets, done, e);
      offsets := offsets + [e];
      todo, done := todo - {topic}, done + {topic};
    }
    assert done == topicPartitions.Keys;
  }

  lemma GroupOfTopic(ends: EndOffsets, cs: seq<Committed>, grouped: map<string, seq<PartitionOffset>>, topic: string)
    requires Groups(ends, cs, grouped) && topic in grouped
    ensures grouped[topic] == InfosOf(ends, cs, topic) != []
  {
    assert Get(grouped, topic) == InfosOf(ends, cs, topic);
  }

  function Get(grouped: map<string, seq<PartitionOffset>>, topic: string): seq<PartitionOffset> {
    if topic in grouped then grouped[topic] else []
  }

  /** Each topic's partitions are what the map holds for it, and only committed topics are keys. */
  ghost predicate Groups(ends: EndOffsets, cs: seq<Committed>, grouped: map<string, seq<PartitionOffset>>) {
    && (forall t :: Get(grouped, t) == InfosOf(ends, cs, t))
    && (forall t :: t in grouped ==> grouped[t] != [])
  }

  lemma InfosAppend(ends: EndOffsets, cs: seq<Committed>, c: Committed, topic: string)
    ensures InfosOf(ends, cs + [c], topic) ==
            if topic == c.topic then InfosOf(ends, cs, topic) + [Info(ends, c)] else InfosOf(ends, cs, topic)
  {
    assert (cs + [c])[..|cs|] == cs;
    assert InfosOf(ends, cs, topic) + [] == InfosOf(ends, cs, topic);
  }

  lemma GroupsAppend(ends: EndOffsets, cs: seq<Committed>, c: Committed, grouped: map<string, seq<PartitionOffset>>)
    requires Groups(ends, cs, grouped)
    ensures Groups(ends, cs + [c], grouped[c.topic := Get(grouped, c.topic) + [Info(ends, c)]])
  {
    var all, next := cs + [c], grouped[c.topic := Get(grouped, c.topic) + [Info(ends, c)]];
    forall t ensures Get(next, t) == InfosOf(ends, all, t) {
      InfosAppend(ends, cs, c, t);
      assert Get(grouped, t) == InfosOf(ends, cs, t);
    }
  }

  method Group(ends: EndOffsets, cs: seq<Committed>) returns (grouped: map<string, seq<PartitionOffset>>)
    ensures Groups(ends, cs, grouped)
  {
    grouped := map[];
    for i := 0 to |cs|
      invariant Groups(ends, cs[..i], grouped)
    {
      assert cs[..i + 1] == cs[..i] + [cs[i]];
      GroupsAppend(ends, cs[..i], cs[i], grouped);
      var o, end := cs[i], 0;
      if (o.topic, o.partition) in ends {
        end := ends[(o.topic, o.partition)];
      }
      var lag := end - o.at;
      if lag < 0 {
        lag := 0;
      }
      grouped := grouped[o.topic := Get(grouped, o.topic) + [PartitionOffset(o.partition, o.at, end, lag)]];
    }
    assert cs[..|cs|] == cs;
  }

  lemma CommittedIsGrouped(ends: EndOffsets, cs: seq<Committed>, grouped: map<string, seq<PartitionOffset>>,
                           c: Committed)
    requires Groups(ends, cs, grouped) && c in cs
    ensures c.topic in grouped
  {
    InfosElements(ends, cs, c.topic, Info(ends, c));
    assert Get(grouped, c.topic) == InfosOf(ends, cs, c.topic);
  }

  method Entry(ends: EndOffsets, cs: seq<Committed>, topic: string, parts: seq<PartitionOffset>)
    returns (e: TopicOffset)
    requires KeyedByPartition(cs) && parts == InfosOf(ends, cs, topic) != []
    ensures EntryOf(ends, cs, e) && e.topic == topic
  {
    var sorted := Sort(parts, ByPartition());
    InfosApart(ends, cs, topic);
    SortedApartIsStrict(parts, sorted, ByPartition());
    SameElements(sorted, parts);
    var totalLag := 0;
    for i := 0 to |sorted|
      invariant totalLag == SumLag(sorted[..i])
    {
      assert sorted[..i + 1][..i] == sorted[..i];
      totalLag := totalLag + sorted[i].lag;
    }
    assert sorted[..|sorted|] == sorted;
    e := TopicOffset(topic, sorted, totalLag);
  }

  // ---------------------------------------------------------------- iteration order does not matter

  lemma EntryUnique(ends: EndOffsets, cs: seq<Committed>, cs': seq<Committed>, e: TopicOffset, e': TopicOffset)
    requires forall c :: c in cs <==> c in cs'
    requires EntryOf(ends, cs, e) && EntryOf(ends, cs', e') && e.topic == e'.topic
    ensures e == e'
  {
    SameElements(e.partitions, InfosOf(ends, cs, e.topic));
    SameElements(e'.partitions, InfosOf(ends, cs', e.topic));
    forall p ensures p in e.partitions <==> p in e'.partitions {
      InfosElements(ends, cs, e.topic, p);
      InfosElements(ends, cs', e.topic, p);
    }
    StrictlySortedUnique(e.partitions, e'.partitions, ByPartition());
  }

  lemma EntryTopicCommitted(ends: EndOffsets, cs: seq<Committed>, e: TopicOffset)
    requires EntryOf(ends, cs, e)
    ensures exists c :: c in cs && c.topic == e.topic
  {
    SameElements(e.partitions, InfosOf(ends, cs, e.topic));
    InfosElements(ends, cs, e.topic, e.partitions[0]);
  }

  lemma ReportContains(ends: EndOffsets, cs: seq<Committed>, cs': seq<Committed>, out': seq<TopicOffset>,
                       e: TopicOffset)
    requires EntryOf(ends, cs, e) && IsReport(ends, cs', out')
    requires forall c :: c in cs <==> c in cs'
    ensures e in out'
  {
    EntryTopicCommitted(ends, cs, e);
    var e' :| e' in out' && e'.topic == e.topic;
    EntryUnique(ends, cs, cs', e, e');
  }

  /** Two reports on the same commits, met in any two orders, are equal. */
  lemma ReportIgnoresOrder(ends: EndOffsets, cs: seq<Committed>, cs': seq<Committed>, out: seq<TopicOffset>,
                           out': seq<TopicOffset>)
    requires forall c :: c in cs <==> c in cs'
    requires IsReport(ends, cs, out) && IsReport(ends, cs', out')
    ensures out == out'
  {
    forall e ensures e in out <==> e in out' {
      if e in out { ReportContains(ends, cs, cs', out', e); }
      if e in out' { ReportContains(ends, cs', cs, out, e); }
    }
    OrderByKey(Topic());
    StrictlySortedUnique(out, out', ByKey(Topic()));
  }

  // ---------------------------------------------------------------- what a report says

  /** A report in numbers: topics and partitions ascend, and every commit is shown with its committed offset, its end
      offset, zero if none is listed, and how far the one is behind the other, never less than zero. */
  lemma ReportInOrder(ends: EndOffsets, cs: seq<Committed>, out: seq<TopicOffset>)
    requires IsReport(ends, cs, out)
    ensures forall i, j :: 0 <= i < j < |out| ==> StringLess(out[i].topic, out[j].topic)
    ensures forall e, i, j :: e in out && 0 <= i < j < |e.partitions| ==>
            e.partitions[i].partition < e.partitions[j].partition
  {
    forall e, i, j | e in out && 0 <= i < j < |e.partitions|
      ensures e.partitions[i].partition < e.partitions[j].partition
    {
      assert EntryOf(ends, cs, e);
      assert ByPartition()(e.partitions[i], e.partitions[j]);
    }
    forall i, j | 0 <= i < j < |out| ensures StringLess(out[i].topic, out[j].topic) {
      assert ByKey(Topic())(out[i], out[j]);
    }
  }

  lemma InfoInNumbers(ends: EndOffsets, c: Committed)
    ensures var end := if (c.topic, c.partition) in ends then ends[(c.topic, c.partition)] else 0;
            Info(ends, c) == PartitionOffset(c.partition, c.at, end, if end > c.at then end - c.at else 0)
  {
  }

  lemma InfoInEntry(ends: EndOffsets, cs: seq<Committed>, e: TopicOffset, c: Committed)
    requires EntryOf(ends, cs, e) && c in cs && e.topic == c.topic
    ensures Info(ends, c) in e.partitions
  {
    InfosElements(ends, cs, c.topic, Info(ends, c));
    SameElements(e.partitions, InfosOf(ends, cs, e.topic));
  }

  lemma CommitIsShown(ends: EndOffsets, cs: seq<Committed>, out: seq<TopicOffset>, c: Committed)
    returns (e: TopicOffset)
    requires IsReport(ends, cs, out) && c in cs
    ensures e in out && e.topic == c.topic
    ensures var end := if (c.topic, c.partition) in ends then ends[(c.topic, c.partition)] else 0;
            PartitionOffset(c.partition, c.at, end, if end > c.at then end - c.at else 0) in e.partitions
  {
    e :| e in out && e.topic == c.topic;
    InfoInEntry(ends, cs, e, c);
    InfoInNumbers(ends, c);
  }

  /** Nothing is shown that was not committed. */
  lemma ShownIsCommitted(ends: EndOffsets, cs: seq<Committed>, out: seq<TopicOffset>, e: TopicOffset,
                         p: PartitionOffset)
    requires IsReport(ends, cs, out) && e in out && p in e.partitions
    ensures Committed(e.topic, p.partition, p.current) in cs
  {
    SameElements(e.partitions, InfosOf(ends, cs, e.topic));
    InfosElements(ends, cs, e.topic, p);
  }

  // ---------------------------------------------------------------- nothing lost, nothing counted twice

  function TotalLag(out: seq<TopicOffset>): int {
    if out == [] then 0 else TotalLag(out[..|out| - 1]) + out[|out| - 1].totalLag
  }

  /** The lag of every commit, summed over the input. */
  function LagOfAll(ends: EndOffsets, cs: seq<Committed>): int {
    if cs == [] then 0
    else
      var n := |cs| - 1;
      LagOfAll(ends, cs[..n]) + (if EndOf(ends, cs[n]) > cs[n].at then EndOf(ends, cs[n]) - cs[n].at else 0)
  }

  lemma {:induction false} SumWithout(ps: seq<PartitionOffset>, i: nat)
    requires i < |ps|
    ensures SumLag(ps) == SumLag(ps[..i] + ps[i + 1..]) + ps[i].lag
  {
    var n, rest := |ps| - 1, ps[..i] + ps[i + 1..];
    if i == n {
      assert rest == ps[..n];
    } else {
      SumWithout(ps[..n], i);
      assert rest[..|rest| - 1] == ps[..n][..i] + ps[..n][i + 1..];
    }
  }

  lemma {:induction false} SumOfPermutation(a: seq<PartitionOffset>, b: seq<PartitionOffset>)
    requires multiset(a) == multiset(b)
    ensures SumLag(a) == SumLag(b)
  {
    SameElements(a, b);
    if a == [] {
    } else {
      var n := |a| - 1;
      assert a[n] in b;
      var i :| 0 <= i < |b| && b[i] == a[n];
      SumWithout(b, i);
      RemoveSame(a, n, b, i);
      assert a[..n] + a[n + 1..] == a[..n];
      SumOfPermutation(a[..n], b[..i] + b[i + 1..]);
    }
  }

  /** The lags of the commits whose topic is listed, topic by topic. */
  function SumByTopic(ends: EndOffsets, cs: seq<Committed>, topics: seq<string>): int {
    if topics == [] then 0
    else SumByTopic(ends, cs, topics[..|topics| - 1]) + SumLag(InfosOf(ends, cs, topics[|topics| - 1]))
  }

  lemma SumAppend(ps: seq<PartitionOffset>, p: PartitionOffset)
    ensures SumLag(ps + [p]) == SumLag(ps) + p.lag
  {
    assert (ps + [p])[..|ps|] == ps;
  }

  lemma OneMoreInTopic(ends: EndOffsets, cs: seq<Committed>, c: Committed, topic: string)
    ensures SumLag(InfosOf(ends, cs + [c], topic)) ==
            SumLag(InfosOf(ends, cs, topic)) + if topic == c.topic then Info(ends, c).lag else 0
  {
    InfosAppend(ends, cs, c, topic);
    SumAppend(InfosOf(ends, cs, topic), Info(ends, c));
  }

  predicate DistinctTopics(topics: seq<string>) {
    topics != [] ==> var n := |topics| - 1; topics[n] !in topics[..n] && DistinctTopics(topics[..n])
  }

  lemma {:induction false} DistinctByPosition(topics: seq<string>)
    requires forall i, j :: 0 <= i < j < |topics| ==> topics[i] != topics[j]
    ensures DistinctTopics(topics)
  {
    if topics == [] {
    } else {
      DistinctByPosition(topics[..|topics| - 1]);
    }
  }

  lemma InLastOrBefore(topics: seq<string>, x: string)
    requires topics != []
    ensures x in topics <==> x in topics[..|topics| - 1] || x == topics[|topics| - 1]
  {
    assert topics == topics[..|topics| - 1] + [topics[|topics| - 1]];
  }

  lemma {:induction false} OneMoreCommit(ends: EndOffsets, cs: seq<Committed>, c: Committed, topics: seq<string>)
    requires DistinctTopics(topics)
    ensures SumByTopic(ends, cs + [c], topics) ==
            SumByTopic(ends, cs, topics) + if c.topic in topics then Info(ends, c).lag else 0
  {
    if topics == [] {
    } else {
      var n := |topics| - 1;
      OneMoreCommit(ends, cs, c, topics[..n]);
      OneMoreInTopic(ends, cs, c, topics[n]);
      InLastOrBefore(topics, c.topic);
    }
  }

  lemma {:induction false} NoCommitsNoLag(ends: EndOffsets, topics: seq<string>)
    ensures SumByTopic(ends, [], topics) == 0
  {
    if topics == [] {
    } else {
      NoCommitsNoLag(ends, topics[..|topics| - 1]);
    }
  }

  lemma {:induction false} TopicsCoverLag(ends: EndOffsets, cs: seq<Committed>, topics: seq<string>)
    requires DistinctTopics(topics)
    requires forall c :: c in cs ==> c.topic in topics
    ensures SumByTopic(ends, cs, topics) == LagOfAll(ends, cs)
  {
    if cs == [] {
      NoCommitsNoLag(ends, topics);
    } else {
      var n := |cs| - 1;
      OneMoreCommit(ends, cs[..n], cs[n], topics);
      assert cs == cs[..n] + [cs[n]];
      assert cs[n] in cs && forall c :: c in cs[..n] ==> c in cs;
      TopicsCoverLag(ends, cs[..n], topics);
    }
  }

  function TopicsOf(out: seq<TopicOffset>): seq<string> {
    if out == [] then [] else TopicsOf(out[..|out| - 1]) + [out[|out| - 1].topic]
  }

  lemma {:induction false} TopicsAt(out: seq<TopicOffset>)
    ensures |TopicsOf(out)| == |out| && forall i :: 0 <= i < |out| ==> TopicsOf(out)[i] == out[i].topic
  {
    if out == [] {
    } else {
      TopicsAt(out[..|out| - 1]);
    }
  }

  lemma {:induction false} TotalsByTopic(ends: EndOffsets, cs: seq<Committed>, out: seq<TopicOffset>)
    requires forall i :: 0 <= i < |out| ==> EntryOf(ends, cs, out[i])
    ensures TotalLag(out) == SumByTopic(ends, cs, TopicsOf(out))
  {
    if out == [] {
    } else {
      var n := |out| - 1;
      TotalsByTopic(ends, cs, out[..n]);
      SumOfPermutation(out[n].partitions, InfosOf(ends, cs, out[n].topic));
      var topics := TopicsOf(out[..n]);
      assert (topics + [out[n].topic])[..|topics|] == topics;
    }
  }

  /** The topic totals of a report add up to the lag of every commit, counted once. */
  lemma LagIsConserved(ends: EndOffsets, cs: seq<Committed>, out: seq<TopicOffset>)
    requires IsReport(ends, cs, out)
    ensures TotalLag(out) == LagOfAll(ends, cs)
  {
    TotalsByTopic(ends, cs, out);
    TopicsAt(out);
    var topics := TopicsOf(out);
    OrderByKey(Topic());
    forall i, j | 0 <= i < j < |topics| ensures topics[i] != topics[j] {
      assert ByKey(Topic())(out[i], out[j]);
    }
    forall c | c in cs ensures c.topic in topics {
      var e :| e in out && e.topic == c.topic;
      var i :| 0 <= i < |out| && out[i] == e;
      assert topics[i] == c.topic;
    }
    DistinctByPosition(topics);
    TopicsCoverLag(ends, cs, topics);
  }
}
