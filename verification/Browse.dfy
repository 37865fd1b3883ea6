/**
 Browsing messages: the poll loop of ConsumeMessages (internal/kafka/client.go) and what the
 handler makes of it (internal/api/handlers/message.go): over-fetch, mask, filter, truncate.

 The polls of one request are a given sequence of outcomes; the request's context ends after them.
 */
module Browse {
  import opened Wrappers
  import M = Masking
  import H = MaskingHeap

  datatype Message = Message(
    partition: int, offset: int, timestamp: int,
    key: string, value: string, headers: map<string, string>,
    keyFormat: string, valueFormat: string)

  datatype Poll = Batch(records: seq<Message>) | TimedOut | Failed(error: string) | Cancelled

  datatype Consumed = Consumed(records: seq<Message>, error: Option<string>)

  /** The limit check at the head of ConsumeMessages. */
  function Clamp(limit: int): (n: nat)
    ensures 1 <= n <= 500
  {
    if limit <= 0 then 100 else if limit > 500 then 500 else limit
  }

  // ---------------------------------------------------------------- what the polls make available

  /** The records of all polls before the first that brings none. */
  function Available(polls: seq<Poll>): seq<Message> {
    if polls == [] || !polls[0].Batch? || polls[0].records == [] then []
    else polls[0].records + Available(polls[1..])
  }

  /** The failure, if it is a failure that ends the available records. */
  function FailureAfter(polls: seq<Poll>): Option<string> {
    if polls == [] then None
    else
      match polls[0]
      case Batch(records) => if records == [] then None else FailureAfter(polls[1..])
      case Failed(e) => Some(e)
      case _ => None
  }

  function Take<T>(s: seq<T>, n: nat): (t: seq<T>)
    ensures t <= s && |t| == if |s| < n then |s| else n
  {
    if |s| <= n then s else s[..n]
  }

  /** The first Limit available records, and the failure if it came before the limit was reached. */
  function Consume(polls: seq<Poll>, limit: nat): Consumed {
    var all := Available(polls);
    Consumed(Take(all, limit), if |all| < limit then FailureAfter(polls) else None)
  }

  /** The callback passed to EachRecord: appends until the limit is reached. */
  method AppendRecords(records: seq<Message>, batch: seq<Message>, limit: nat) returns (out: seq<Message>)
    requires |records| <= limit
    ensures out == Take(records + batch, limit)
  {
    out := records;
    for i := 0 to |batch|
      invariant out == Take(records + batch[..i], limit)
    {
      assert records + batch[..i + 1] == (records + batch[..i]) + [batch[i]];
      if |out| < limit {
        out := out + [batch[i]];
      }
    }
    assert batch[..|batch|] == batch;
  }

  /** The result of a request that has these records already and these polls still to come. */
  ghost function Continue(records: seq<Message>, polls: seq<Poll>, limit: nat): Consumed {
    var all := records + Available(polls);
    Consumed(Take(all, limit), if |all| < limit then FailureAfter(polls) else None)
  }

  lemma ContinueStart(polls: seq<Poll>, limit: nat)
    ensures Continue([], polls, limit) == Consume(polls, limit)
  {
    assert [] + Available(polls) == Available(polls);
  }

  /** One batch taken in, as far as the limit lets it. */
  lemma ContinueBatch(records: seq<Message>, polls: seq<Poll>, limit: nat)
    requires polls != [] && polls[0].Batch? && polls[0].records != []
    ensures Continue(Take(records + polls[0].records, limit), polls[1..], limit) == Continue(records, polls, limit)
  {
    var batch, rest := polls[0].records, Available(polls[1..]);
    assert records + (batch + rest) == (records + batch) + rest;
    if |records + batch| >= limit {
      assert Take(Take(records + batch, limit) + rest, limit) == Take((records + batch) + rest, limit);
    }
  }

  lemma ContinueEnd(records: seq<Message>, polls: seq<Poll>, limit: nat)
    requires (|records| <= limit && Available(polls) == []) || |records| == limit
    ensures Continue(records, polls, limit) ==
            Consumed(records, if |records| < limit then FailureAfter(polls) else None)
  {
    if |records| < limit {
      assert records + [] == records;
    }
  }

  /** The poll loop. */
  method ConsumeMessages(polls: seq<Poll>, requested: int) returns (r: Consumed)
    ensures r == Consume(polls, Clamp(requested))
  {
    var limit := requested;
    if limit <= 0 {
      limit := 100;
    }
    if limit > 500 {
      limit := 500;
    }
    var records, i := [], 0;
    assert polls[0..] == polls;
    ContinueStart(polls, limit);
    while |records| < limit
      invariant i <= |polls| && |records| <= limit
      invariant Continue(records, polls[i..], limit) == Consume(polls, limit)
      decreases |polls| - i
    {
      if i == |polls| || polls[i].Cancelled? || polls[i].TimedOut? {
        break;
      }
      if polls[i].Failed? {
        ContinueEnd(records, polls[i..], limit);
        return Consumed(records, Some(polls[i].error));
      }
      var countBefore := |records|;
      var more := AppendRecords(records, polls[i].records, limit);
      if |more| == countBefore {
        break;
      }
      ContinueBatch(records, polls[i..], limit);
      assert polls[i..][1..] == polls[i + 1..];
      records := more;
      i := i + 1;
    }
    ContinueEnd(records, polls[i..], limit);
    return Consumed(records, None);
  }

  function Concat(batches: seq<seq<Message>>): seq<Message> {
    if batches == [] then [] else batches[0] + Concat(batches[1..])
  }

  /** The polls that bring these batches, one that brings nothing, and whatever would follow. */
  function Polls(batches: seq<seq<Message>>, stop: Poll, after: seq<Poll>): seq<Poll> {
    if batches == [] then [stop] + after else [Batch(batches[0])] + Polls(batches[1..], stop, after)
  }

  lemma {:induction false} PollsMakeAvailable(batches: seq<seq<Message>>, stop: Poll, after: seq<Poll>)
    requires (forall b :: b in batches ==> b != []) && (stop.Batch? ==> stop.records == [])
    ensures Available(Polls(batches, stop, after)) == Concat(batches)
    ensures FailureAfter(Polls(batches, stop, after)) == if stop.Failed? then Some(stop.error) else None
  {
    var polls := Polls(batches, stop, after);
    if batches == [] {
      assert polls[0] == stop;
    } else {
      assert batches[0] in batches && forall b :: b in batches[1..] ==> b in batches;
      PollsMakeAvailable(batches[1..], stop, after);
      assert polls[0] == Batch(batches[0]) && polls[1..] == Polls(batches[1..], stop, after);
    }
  }

  /** A request returns the first records of its non-empty batches run together, however they are split over
      polls and whatever the broker would deliver after the first poll that brings nothing. */
  lemma BatchesDoNotMatter(batches: seq<seq<Message>>, stop: Poll, after: seq<Poll>, limit: nat)
    requires (forall b :: b in batches ==> b != []) && (stop.Batch? ==> stop.records == [])
    ensures Consume(Polls(batches, stop, after), limit) ==
            Consumed(Take(Concat(batches), limit),
                     if stop.Failed? && |Concat(batches)| < limit then Some(stop.error) else None)
  {
    PollsMakeAvailable(batches, stop, after);
  }

  // ---------------------------------------------------------------- the handler

  /** The compiled filter: None when its evaluation fails. */
  type Filter = Message -> Option<bool>

  datatype Masker = Masker(lib: M.Library, rules: seq<M.MaskingRule>)

  datatype BrowseError = InvalidLimit | ConsumeFailed(error: string)

  function MaskOne(masker: Option<Masker>, topic: string, m: Message): Message {
    match masker
    case None => m
    case Some(k) => m.(value := M.Masked(k.lib, k.rules, topic, m.value))
  }

  function MaskAll(masker: Option<Masker>, topic: string, ms: seq<Message>): (out: seq<Message>)
    ensures |out| == |ms|
  {
    if ms == [] then []
    else MaskAll(masker, topic, ms[..|ms| - 1]) + [MaskOne(masker, topic, ms[|ms| - 1])]
  }

  function Matching(filter: Filter, ms: seq<Message>): seq<Message> {
    if ms == [] then []
    else Matching(filter, ms[..|ms| - 1]) + if filter(ms[|ms| - 1]) == Some(true) then [ms[|ms| - 1]] else []
  }

  /** How many records a filtered request for so many results reads. */
  function OverFetch(limit: nat): nat {
    if 5 * limit < 500 then 5 * limit else 500
  }

  /** The records masked first, then filtered on their masked form, then cut to the wanted number. */
  function Finish(records: seq<Message>, wanted: nat, topic: string, masker: Option<Masker>,
                  filter: Option<Filter>): seq<Message> {
    var masked := MaskAll(masker, topic, records);
    if filter.Some? then Take(Matching(filter.value, masked), wanted) else masked
  }

  function Response(polls: seq<Poll>, limit: Option<int>, topic: string, masker: Option<Masker>, filter: Option<Filter>)
    : Result<seq<Message>, BrowseError>
  {
    if limit.Some? && !(1 <= limit.value <= 500) then Err(InvalidLimit)
    else
      var wanted := if limit.Some? then limit.value else 100;
      var fetched := Consume(polls, if filter.Some? then OverFetch(wanted) else wanted);
      if fetched.error.Some? then Err(ConsumeFailed(fetched.error.value))
      else Ok(Finish(fetched.records, wanted, topic, masker, filter))
  }

  method Browse(polls: seq<Poll>, limit: Option<int>, topic: string, masker: Option<Masker>, filter: Option<Filter>)
    returns (r: Result<seq<Message>, BrowseError>)
    ensures r == Response(polls, limit, topic, masker, filter)
  {
    var requested := 100;
    if limit.Some? {
      if limit.value < 1 || limit.value > 500 {
        return Err(InvalidLimit);
      }
      requested := limit.value;
    }
    var originalLimit := requested;
    if filter.Some? {
      requested := originalLimit * 5;
      if requested > 2500 {
        requested := 2500;
      }
    }
    var consumed := ConsumeMessages(polls, requested);
    if consumed.error.Some? {
      return Err(ConsumeFailed(consumed.error.value));
    }
    var messages := consumed.records;
    if masker.Some? {
      messages := MaskInPlace(messages, topic, masker.value);
    } else {
      NoMasker(topic, messages);
    }
    if filter.Some? {
      messages := FirstMatches(messages, filter.value, originalLimit);
    }
    return Ok(messages);
  }

  /** Rewrites the value of one message after the other. */
  method MaskInPlace(ms: seq<Message>, topic: string, masker: Masker) returns (out: seq<Message>)
    ensures out == MaskAll(Some(masker), topic, ms)
  {
    out := ms;
    for i := 0 to |ms|
      invariant |out| == |ms|
      invariant forall k :: 0 <= k < i ==> out[k] == MaskOne(Some(masker), topic, ms[k])
      invariant forall k :: i <= k < |ms| ==> out[k] == ms[k]
    {
      var value := H.MaskMessage(masker.lib, masker.rules, topic, out[i].value);
      out := out[i := out[i].(value := value)];
    }
    MaskAllAt(Some(masker), topic, ms);
  }

  lemma {:induction false} MaskAllAt(masker: Option<Masker>, topic: string, ms: seq<Message>)
    ensures forall k :: 0 <= k < |ms| ==> MaskAll(masker, topic, ms)[k] == MaskOne(masker, topic, ms[k])
  {
    if ms == [] {
    } else {
      MaskAllAt(masker, topic, ms[..|ms| - 1]);
    }
  }

  lemma {:induction false} NoMasker(topic: string, ms: seq<Message>)
    ensures MaskAll(None, topic, ms) == ms
  {
    if ms == [] {
    } else {
      NoMasker(topic, ms[..|ms| - 1]);
    }
  }

  /** Keeps the messages that match, skipping evaluation failures, and stops at the limit. */
  method FirstMatches(ms: seq<Message>, filter: Filter, limit: nat) returns (out: seq<Message>)
    requires limit > 0
    ensures out == Take(Matching(filter, ms), limit)
  {
    out := [];
    for i := 0 to |ms|
      invariant |out| < limit && out == Matching(filter, ms[..i])
    {
      assert ms[..i + 1][..i] == ms[..i];
      var match_ := filter(ms[i]);
      if match_.None? {
        continue;
      }
      if match_.value {
        out := out + [ms[i]];
        if |out| >= limit {
          MatchingGrows(filter, ms[..i + 1], ms[i + 1..]);
          assert ms == ms[..i + 1] + ms[i + 1..];
          return;
        }
      }
    }
    assert ms[..|ms|] == ms;
  }

  lemma {:induction false} MatchingAppend(filter: Filter, a: seq<Message>, b: seq<Message>)
    ensures Matching(filter, a + b) == Matching(filter, a) + Matching(filter, b)
  {
    if b == [] {
      assert a + b == a;
    } else {
      var n := |b| - 1;
      assert (a + b)[..|a + b| - 1] == a + b[..n];
      MatchingAppend(filter, a, b[..n]);
    }
  }

  lemma MatchingGrows(filter: Filter, a: seq<Message>, b: seq<Message>)
    ensures Matching(filter, a) <= Matching(filter, a + b)
  {
    MatchingAppend(filter, a, b);
  }

  lemma {:induction false} MaskAllAppend(masker: Option<Masker>, topic: string, a: seq<Message>, b: seq<Message>)
    ensures MaskAll(masker, topic, a + b) == MaskAll(masker, topic, a) + MaskAll(masker, topic, b)
  {
    if b == [] {
      assert a + b == a;
    } else {
      var n := |b| - 1;
      assert (a + b)[..|a + b| - 1] == a + b[..n];
      MaskAllAppend(masker, topic, a, b[..n]);
    }
  }

  // ---------------------------------------------------------------- unfiltered and filtered requests compared

  /** Over the same polls the plain answer for a limit is a prefix of the masked records the filtered request reads. */
  lemma PlainIsPrefixOfFetch(polls: seq<Poll>, limit: int, topic: string, masker: Option<Masker>)
    requires 1 <= limit <= 500 && FailureAfter(polls).None?
    ensures Response(polls, Some(limit), topic, masker, None).Ok?
    ensures Response(polls, Some(limit), topic, masker, None).value <=
            MaskAll(masker, topic, Consume(polls, OverFetch(limit)).records)
  {
    var all := Available(polls);
    var few, many := Take(all, limit), Take(all, OverFetch(limit));
    assert many == few + many[|few|..];
    MaskAllAppend(masker, topic, few, many[|few|..]);
  }

  /** Partition and offset tell the records apart. */
  predicate DistinctRecords(ms: seq<Message>) {
    forall i, j :: 0 <= i < j < |ms| ==> ms[i].partition != ms[j].partition || ms[i].offset != ms[j].offset
  }

  /** Matches one record by its partition and offset. */
  function OnlyRecord(m: Message): Filter {
    (x: Message) => Some(x.partition == m.partition && x.offset == m.offset)
  }

  lemma {:induction false} NoMatch(filter: Filter, ms: seq<Message>)
    requires forall i :: 0 <= i < |ms| ==> filter(ms[i]) != Some(true)
    ensures Matching(filter, ms) == []
  {
    if ms == [] {
    } else {
      NoMatch(filter, ms[..|ms| - 1]);
    }
  }

  lemma NoMatchAmongOthers(masker: Option<Masker>, topic: string, m: Message, others: seq<Message>)
    requires forall i :: 0 <= i < |others| ==> others[i].partition != m.partition || others[i].offset != m.offset
    ensures Matching(OnlyRecord(m), MaskAll(masker, topic, others)) == []
  {
    MaskAllAt(masker, topic, others);
    NoMatch(OnlyRecord(m), MaskAll(masker, topic, others));
  }

  lemma MatchOfItself(masker: Option<Masker>, topic: string, m: Message)
    ensures Matching(OnlyRecord(m), MaskAll(masker, topic, [m])) == [MaskOne(masker, topic, m)]
  {
    var none: seq<Message> := [];
    assert [m][..0] == none && [MaskOne(masker, topic, m)][..0] == none;
    assert MaskAll(masker, topic, [m]) == [MaskOne(masker, topic, m)];
  }

  lemma OneMatch(masker: Option<Masker>, topic: string, ms: seq<Message>, k: nat)
    requires DistinctRecords(ms) && k < |ms|
    ensures Matching(OnlyRecord(ms[k]), MaskAll(masker, topic, ms[..k])) == []
    ensures Matching(OnlyRecord(ms[k]), MaskAll(masker, topic, ms[k + 1..])) == []
    ensures Matching(OnlyRecord(ms[k]), MaskAll(masker, topic, [ms[k]])) == [MaskOne(masker, topic, ms[k])]
  {
    NoMatchAmongOthers(masker, topic, ms[k], ms[..k]);
    NoMatchAmongOthers(masker, topic, ms[k], ms[k + 1..]);
    MatchOfItself(masker, topic, ms[k]);
  }

  lemma CutAt(ms: seq<Message>, k: nat)
    requires k < |ms|
    ensures ms == ms[..k] + ([ms[k]] + ms[k + 1..])
  {
  }

  lemma MatchInTheMiddle(masker: Option<Masker>, topic: string, filter: Filter,
                         a: seq<Message>, b: seq<Message>, c: seq<Message>)
    requires Matching(filter, MaskAll(masker, topic, a)) == [] && Matching(filter, MaskAll(masker, topic, c)) == []
    ensures Matching(filter, MaskAll(masker, topic, a + (b + c))) == Matching(filter, MaskAll(masker, topic, b))
  {
    MaskedMatches(masker, topic, filter, a, b + c);
    MaskedMatches(masker, topic, filter, b, c);
  }

  lemma OnlyRecordMatches(masker: Option<Masker>, topic: string, ms: seq<Message>, k: nat)
    requires DistinctRecords(ms) && k < |ms|
    ensures Matching(OnlyRecord(ms[k]), MaskAll(masker, topic, ms)) == [MaskOne(masker, topic, ms[k])]
  {
    OneMatch(masker, topic, ms, k);
    MatchInTheMiddle(masker, topic, OnlyRecord(ms[k]), ms[..k], [ms[k]], ms[k + 1..]);
    CutAt(ms, k);
  }

  /** With more records than are fetched, a filter for the first record beyond the fetch finds nothing,
      although that record is there. */
  lemma MatchBeyondFetchIsMissed(polls: seq<Poll>, limit: int, topic: string, masker: Option<Masker>)
    requires 1 <= limit <= 500 && FailureAfter(polls).None?
    requires DistinctRecords(Available(polls)) && |Available(polls)| > OverFetch(limit)
    ensures var all := Available(polls);
            var filter := OnlyRecord(all[OverFetch(limit)]);
            && Response(polls, Some(limit), topic, masker, Some(filter)) == Ok([])
            && Take(Matching(filter, MaskAll(masker, topic, all)), limit) ==
               [MaskOne(masker, topic, all[OverFetch(limit)])]
  {
    var all, n := Available(polls), OverFetch(limit);
    OnlyRecordMatches(masker, topic, all, n);
    OneMatch(masker, topic, all, n);
    assert Take(all, n) == all[..n];
  }

  /** A filtered request answers with the first matches of all available records, whatever the filter,
      exactly when there are at most as many records as it fetches: five times the limit, at most 500. */
  lemma CompleteForEveryFilterIff(polls: seq<Poll>, limit: int, topic: string, masker: Option<Masker>)
    requires 1 <= limit <= 500 && FailureAfter(polls).None? && DistinctRecords(Available(polls))
    ensures (forall filter: Filter ::
               Response(polls, Some(limit), topic, masker, Some(filter)) ==
               Ok(Take(Matching(filter, MaskAll(masker, topic, Available(polls))), limit))) <==>
            |Available(polls)| <= if 5 * limit < 500 then 5 * limit else 500
  {
    if |Available(polls)| <= OverFetch(limit) {
      assert Take(Available(polls), OverFetch(limit)) == Available(polls);
    } else {
      MatchBeyondFetchIsMissed(polls, limit, topic, masker);
    }
  }

  /** So six records are enough for a request of limit one to miss the only match. */
  lemma SixthRecordIsMissed() returns (polls: seq<Poll>, filter: Filter)
    ensures FailureAfter(polls).None? && |Available(polls)| == 6
    ensures Response(polls, Some(1), "topic", None, Some(filter)) == Ok([])
    ensures Matching(filter, MaskAll(None, "topic", Available(polls))) == [Available(polls)[5]]
  {
    var records := seq(6, (i: nat) => Message(0, i, 0, "", "", map[], "", ""));
    polls := [Batch(records), TimedOut];
    assert polls[1..] == [TimedOut] && Available(polls[1..]) == [];
    assert Available(polls) == records;
    filter := OnlyRecord(records[5]);
    MatchBeyondFetchIsMissed(polls, 1, "topic", None);
    OnlyRecordMatches(None, "topic", records, 5);
  }

  lemma MaskedMatches(masker: Option<Masker>, topic: string, filter: Filter, a: seq<Message>, b: seq<Message>)
    ensures Matching(filter, MaskAll(masker, topic, a + b)) ==
            Matching(filter, MaskAll(masker, topic, a)) + Matching(filter, MaskAll(masker, topic, b))
  {
    MaskAllAppend(masker, topic, a, b);
    MatchingAppend(filter, MaskAll(masker, topic, a), MaskAll(masker, topic, b));
  }

  // ---------------------------------------------------------------- masking comes before filtering

  /** The same polls, message by message the same up to what masking removes. */
  predicate SameMasked(masker: Option<Masker>, topic: string, a: seq<Message>, b: seq<Message>) {
    |a| == |b| && forall i :: 0 <= i < |a| ==> MaskOne(masker, topic, a[i]) == MaskOne(masker, topic, b[i])
  }

  lemma {:induction false} MaskAllSame(masker: Option<Masker>, topic: string, a: seq<Message>, b: seq<Message>)
    requires SameMasked(masker, topic, a, b)
    ensures MaskAll(masker, topic, a) == MaskAll(masker, topic, b)
  {
    if a == [] {
    } else {
      MaskAllSame(masker, topic, a[..|a| - 1], b[..|b| - 1]);
    }
  }

  lemma ConsumeSame(masker: Option<Masker>, topic: string, a: seq<Poll>, b: seq<Poll>, n: nat)
    requires SameMasked(masker, topic, Available(a), Available(b)) && FailureAfter(a) == FailureAfter(b)
    ensures Consume(a, n).error == Consume(b, n).error
    ensures SameMasked(masker, topic, Consume(a, n).records, Consume(b, n).records)
  {
  }

  /** Whatever masking removes from the messages shows neither in the answer nor through any filter. */
  lemma FilterSeesOnlyMasked(a: seq<Poll>, b: seq<Poll>, limit: Option<int>, topic: string, masker: Option<Masker>,
                             filter: Option<Filter>)
    requires SameMasked(masker, topic, Available(a), Available(b)) && FailureAfter(a) == FailureAfter(b)
    ensures Response(a, limit, topic, masker, filter) == Response(b, limit, topic, masker, filter)
  {
    if limit.None? || 1 <= limit.value <= 500 {
      var wanted := if limit.Some? then limit.value else 100;
      var n := if filter.Some? then OverFetch(wanted) else wanted;
      ConsumeSame(masker, topic, a, b, n);
      MaskAllSame(masker, topic, Consume(a, n).records, Consume(b, n).records);
    }
  }
}
