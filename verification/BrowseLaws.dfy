/**
 What a browse request answers, message by message (internal/api/handlers/message.go): which records,
 in which order, with what in them, and what can be told of a masked value from any answer.
 */
module BrowseLaws {
  import opened Wrappers
  import opened Browse
  import M = Masking
  import JP = JsonPath

  function Wanted(limit: Option<int>): int {
    if limit.Some? then limit.value else 100
  }

  /** What an answer shows of a record: everything as it is, but the value masked for the topic if there are masking
      rules. */
  function Shown(masker: Option<Masker>, topic: string, m: Message): Message {
    Message(m.partition, m.offset, m.timestamp, m.key,
            if masker.Some? then M.Masked(masker.value.lib, masker.value.rules, topic, m.value) else m.value,
            m.headers, m.keyFormat, m.valueFormat)
  }

  function Min(a: int, b: int): int {
    if a < b then a else b
  }

  /** How many records the poll loop takes at most: 100 unless a positive number is asked for, never more than 500. */
  lemma LimitInNumbers(requested: int)
    ensures requested <= 0 ==> Clamp(requested) == 100
    ensures 1 <= requested <= 500 ==> Clamp(requested) == requested
    ensures requested > 500 ==> Clamp(requested) == 500
  {
  }

  /** A limit outside 1 to 500 is refused; otherwise a failure shows exactly if it came before as many records as the
      request reads, five times as many with a filter as without one, but at most 500. */
  lemma ErrorsIff(polls: seq<Poll>, limit: Option<int>, topic: string, masker: Option<Masker>, filter: Option<Filter>)
    ensures Response(polls, limit, topic, masker, filter) == Err(InvalidLimit) <==> !(1 <= Wanted(limit) <= 500)
    ensures forall e :: Response(polls, limit, topic, masker, filter) == Err(ConsumeFailed(e)) <==>
              && 1 <= Wanted(limit) <= 500 && FailureAfter(polls) == Some(e)
              && |Available(polls)| < if filter.Some? then Min(5 * Wanted(limit), 500) else Wanted(limit)
  {
  }

  /** Without a filter the answer is the first available records, each as an answer shows it. */
  lemma PlainAnswer(polls: seq<Poll>, limit: Option<int>, topic: string, masker: Option<Masker>)
    requires 1 <= Wanted(limit) <= 500 && FailureAfter(polls).None?
    ensures var r := Response(polls, limit, topic, masker, None);
            && r.Ok? && |r.value| == Min(|Available(polls)|, Wanted(limit))
            && forall i :: 0 <= i < |r.value| ==> r.value[i] == Shown(masker, topic, Available(polls)[i])
  {
    MaskedIsShown(masker, topic, Take(Available(polls), Wanted(limit)));
  }

  /** The positions of the messages that match. */
  function Hits(filter: Filter, ms: seq<Message>): set<nat> {
    set i: nat | i < |ms| && filter(ms[i]) == Some(true)
  }

  lemma HitsOfOneMore(filter: Filter, ms: seq<Message>, n: nat)
    requires n == |ms| - 1
    ensures Hits(filter, ms) == Hits(filter, ms[..n]) + if filter(ms[n]) == Some(true) then {n} else {}
  {
  }

  lemma {:induction false} MatchingCount(filter: Filter, ms: seq<Message>)
    ensures |Matching(filter, ms)| == |Hits(filter, ms)|
  {
    if ms == [] {
      assert Hits(filter, ms) == {};
    } else {
      var n: nat := |ms| - 1;
      MatchingCount(filter, ms[..n]);
      HitsOfOneMore(filter, ms, n);
    }
  }

  /** The matches in order: a hit stands behind as many as were hit before it. */
  lemma {:induction false} MatchingAt(filter: Filter, ms: seq<Message>, i: nat)
    requires i < |ms| && filter(ms[i]) == Some(true)
    ensures |Hits(filter, ms[..i])| < |Matching(filter, ms)|
    ensures Matching(filter, ms)[|Hits(filter, ms[..i])|] == ms[i]
  {
    var n: nat := |ms| - 1;
    if i == n {
      MatchingCount(filter, ms[..n]);
    } else {
      MatchingAt(filter, ms[..n], i);
      assert ms[..n][..i] == ms[..i];
    }
  }

  /** The first wanted of the messages that match, in order. */
  predicate FirstHits(filter: Filter, seen: seq<Message>, wanted: int, out: seq<Message>) {
    && |out| == Min(|Hits(filter, seen)|, wanted)
    && forall i :: 0 <= i < |seen| && filter(seen[i]) == Some(true) && |Hits(filter, seen[..i])| < wanted ==>
         |Hits(filter, seen[..i])| < |out| && out[|Hits(filter, seen[..i])|] == seen[i]
  }

  lemma TakeIsFirstHits(filter: Filter, seen: seq<Message>, wanted: nat)
    ensures FirstHits(filter, seen, wanted, Take(Matching(filter, seen), wanted))
  {
    MatchingCount(filter, seen);
    forall i | 0 <= i < |seen| && filter(seen[i]) == Some(true)
      ensures |Hits(filter, seen[..i])| < |Matching(filter, seen)|
      ensures Matching(filter, seen)[|Hits(filter, seen[..i])|] == seen[i]
    {
      MatchingAt(filter, seen, i);
    }
  }

  lemma MaskedIsShown(masker: Option<Masker>, topic: string, ms: seq<Message>)
    ensures forall i :: 0 <= i < |ms| ==> MaskAll(masker, topic, ms)[i] == Shown(masker, topic, ms[i])
  {
    MaskAllAt(masker, topic, ms);
  }

  lemma FilteredResponse(polls: seq<Poll>, limit: Option<int>, topic: string, masker: Option<Masker>, filter: Filter)
    requires 1 <= Wanted(limit) <= 500 && FailureAfter(polls).None?
    ensures var seen := MaskAll(masker, topic, Take(Available(polls), OverFetch(Wanted(limit))));
            Response(polls, limit, topic, masker, Some(filter)) == Ok(Take(Matching(filter, seen), Wanted(limit)))
  {
  }

  /** With a filter the answer is made from the first available records, five times as many as wanted and at most 500,
      as an answer shows them: of those that match, the first wanted, in order. */
  lemma FilteredAnswer(polls: seq<Poll>, limit: Option<int>, topic: string, masker: Option<Masker>, filter: Filter)
    returns (seen: seq<Message>)
    requires 1 <= Wanted(limit) <= 500 && FailureAfter(polls).None?
    ensures |seen| == Min(|Available(polls)|, Min(5 * Wanted(limit), 500))
    ensures forall i :: 0 <= i < |seen| ==> seen[i] == Shown(masker, topic, Available(polls)[i])
    ensures var r := Response(polls, limit, topic, masker, Some(filter));
            r.Ok? && FirstHits(filter, seen, Wanted(limit), r.value)
  {
    var fetched := Take(Available(polls), OverFetch(Wanted(limit)));
    seen := MaskAll(masker, topic, fetched);
    FilteredResponse(polls, limit, topic, masker, filter);
    MaskedIsShown(masker, topic, fetched);
    TakeIsFirstHits(filter, seen, Wanted(limit));
  }

  // ---------------------------------------------------------------- what can be told of a masked value

  /** Equal but for the value. */
  predicate SameButValue(a: Message, b: Message) {
    b == Message(a.partition, a.offset, a.timestamp, a.key, b.value, a.headers, a.keyFormat, a.valueFormat)
  }

  /** Records that agree in everything but their values, and whose values are masked alike, give the same answer under
      every filter. */
  lemma OnlyMaskedValuesMatter(a: seq<Poll>, b: seq<Poll>, limit: Option<int>, topic: string, k: Masker,
                               filter: Option<Filter>)
    requires |Available(a)| == |Available(b)| && FailureAfter(a) == FailureAfter(b)
    requires forall i :: 0 <= i < |Available(a)| ==> SameButValue(Available(a)[i], Available(b)[i])
    requires forall i :: 0 <= i < |Available(a)| ==>
               M.Masked(k.lib, k.rules, topic, Available(a)[i].value) ==
                   M.Masked(k.lib, k.rules, topic, Available(b)[i].value)
    ensures Response(a, limit, topic, Some(k), filter) == Response(b, limit, topic, Some(k), filter)
  {
    FilterSeesOnlyMasked(a, b, limit, topic, Some(k), filter);
  }

  /** Two values that differ at most in what the hide at this place among the fields removes. */
  predicate DifferInHidden(k: Masker, topic: string, v: string, w: string, at: nat) {
    var fields := M.FieldsOf(M.MatchingRules(k.lib, k.rules, topic));
    v == w ||
    (&& at < |fields| && fields[at].kind == "hide"
     && (forall f :: f in fields ==> !JP.ProperAncestor(M.Split(f.path), M.Split(fields[at].path)))
     && k.lib.parse(v).Document? && k.lib.parse(w).Document?
     && JP.DifferOnlyAt(M.DocumentOf(k.lib.parse(v)), M.DocumentOf(k.lib.parse(w)), M.Split(fields[at].path))
     && k.lib.marshal(M.ApplyAll(k.lib, M.DocumentOf(k.lib.parse(v)), fields)).Some?)
  }

  /** What a hide removes can be told neither from an answer nor by any choice of filter and limit. */
  lemma HiddenValuesNeverShow(a: seq<Poll>, b: seq<Poll>, limit: Option<int>, topic: string, k: Masker,
                              filter: Option<Filter>, at: nat)
    requires |Available(a)| == |Available(b)| && FailureAfter(a) == FailureAfter(b)
    requires forall i :: 0 <= i < |Available(a)| ==> SameButValue(Available(a)[i], Available(b)[i])
    requires forall i :: 0 <= i < |Available(a)| ==>
               DifferInHidden(k, topic, Available(a)[i].value, Available(b)[i].value, at)
    ensures Response(a, limit, topic, Some(k), filter) == Response(b, limit, topic, Some(k), filter)
  {
    forall i | 0 <= i < |Available(a)|
      ensures M.Masked(k.lib, k.rules, topic, Available(a)[i].value) ==
              M.Masked(k.lib, k.rules, topic, Available(b)[i].value)
    {
      HiddenAlike(k, topic, Available(a)[i].value, Available(b)[i].value, at);
    }
    OnlyMaskedValuesMatter(a, b, limit, topic, k, filter);
  }

  lemma HiddenAlike(k: Masker, topic: string, v: string, w: string, at: nat)
    requires DifferInHidden(k, topic, v, w, at)
    ensures M.Masked(k.lib, k.rules, topic, v) == M.Masked(k.lib, k.rules, topic, w)
  {
    if v != w {
      M.HiddenValueDoesNotShow(k.lib, k.rules, topic, v, w, at);
    }
  }
}
