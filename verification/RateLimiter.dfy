/**
 The fixed-window login rate limiter (internal/auth/ratelimit.go).

 The class keeps the source's fields and its opportunistic sweep.  Its answers are
 specified by a limiter that sees one key only: no map, no sweep, no other keys.
 */
module RateLimiter {
  import opened Wrappers

  datatype Attempt = Attempt(count: int, windowStart: int)

  datatype Limits = Limits(maxAttempts: int, window: int)

  /** One call of Allow, with the clock reading its decision is based on. */
  datatype Call = Call(key: string, now: int)

  // ---------------------------------------------------------------- one key alone

  predicate Decide(state: Option<Attempt>, now: int, lim: Limits) {
    || state.None?
    || now - state.value.windowStart >= lim.window
    || state.value.count < lim.maxAttempts
  }

  function Advance(state: Option<Attempt>, now: int, lim: Limits): Attempt {
    if state.None? || now - state.value.windowStart >= lim.window then
      Attempt(1, now)
    else if state.value.count >= lim.maxAttempts then
      state.value
    else
      Attempt(state.value.count + 1, state.value.windowStart)
  }

  /** What a limiter that only ever saw these call times would remember. */
  function KeyState(times: seq<int>, lim: Limits): Option<Attempt> {
    if times == [] then None
    else Some(Advance(KeyState(times[..|times| - 1], lim), times[|times| - 1], lim))
  }

  function SoloAnswers(times: seq<int>, lim: Limits): seq<bool> {
    if times == [] then []
    else
      var before := times[..|times| - 1];
      SoloAnswers(before, lim) + [Decide(KeyState(before, lim), times[|times| - 1], lim)]
  }

  // ---------------------------------------------------------------- whole histories

  function TimesOf(history: seq<Call>, key: string): seq<int> {
    if history == [] then []
    else
      var last := history[|history| - 1];
      TimesOf(history[..|history| - 1], key) + if last.key == key then [last.now] else []
  }

  /** Each call answered from its own key's earlier calls and nothing else. */
  function Answers(history: seq<Call>, lim: Limits): (answers: seq<bool>)
    ensures |answers| == |history|
  {
    if history == [] then []
    else
      var before, last := history[..|history| - 1], history[|history| - 1];
      Answers(before, lim) + [Decide(KeyState(TimesOf(before, last.key), lim), last.now, lim)]
  }

  /** The part of the answers that was given to one key. */
  function AnswersTo(history: seq<Call>, answers: seq<bool>, key: string): seq<bool>
    requires |answers| == |history|
  {
    if history == [] then []
    else
      var n := |history| - 1;
      AnswersTo(history[..n], answers[..n], key) + if history[n].key == key then [answers[n]] else []
  }

  /** The source's map of attempts, with the sweep left out. */
  function UnsweptMap(history: seq<Call>, lim: Limits): map<string, Attempt> {
    if history == [] then map[]
    else
      var before, last := UnsweptMap(history[..|history| - 1], lim), history[|history| - 1];
      before[last.key := Advance(Lookup(before, last.key), last.now, lim)]
  }

  function Lookup(m: map<string, Attempt>, key: string): Option<Attempt> {
    if key in m then Some(m[key]) else None
  }

  function UnsweptAnswers(history: seq<Call>, lim: Limits): seq<bool> {
    if history == [] then []
    else
      var before, last := history[..|history| - 1], history[|history| - 1];
      UnsweptAnswers(before, lim) + [Decide(Lookup(UnsweptMap(before, lim), last.key), last.now, lim)]
  }

  lemma AnswerAfter(history: seq<Call>, call: Call, lim: Limits)
    ensures Answers(history + [call], lim) ==
            Answers(history, lim) + [Decide(KeyState(TimesOf(history, call.key), lim), call.now, lim)]
  {
    assert (history + [call])[..|history|] == history;
  }

  lemma StateAfter(history: seq<Call>, call: Call, key: string, lim: Limits)
    ensures var solo := KeyState(TimesOf(history, key), lim);
            KeyState(TimesOf(history + [call], key), lim) ==
            if call.key == key then Some(Advance(solo, call.now, lim)) else solo
  {
    var all, times := history + [call], TimesOf(history, key);
    assert all[..|all| - 1] == history;
    assert TimesOf(all, key) == times + if call.key == key then [call.now] else [];
    assert (times + [call.now])[..|times|] == times;
    assert times + [] == times;
  }

  /** A limiter with the sweep removed keeps every key's solo state. */
  lemma {:induction false} UnsweptMapIsSolo(history: seq<Call>, lim: Limits, key: string)
    ensures Lookup(UnsweptMap(history, lim), key) == KeyState(TimesOf(history, key), lim)
  {
    if history == [] {
    } else {
      var before, last := history[..|history| - 1], history[|history| - 1];
      UnsweptMapIsSolo(before, lim, key);
      StateAfter(before, last, key, lim);
      assert before + [last] == history;
    }
  }

  /** Leaving the sweep out changes no answer of any run. */
  lemma {:induction false} UnsweptAnswersAgree(history: seq<Call>, lim: Limits)
    ensures UnsweptAnswers(history, lim) == Answers(history, lim)
  {
    if history == [] {
    } else {
      var before := history[..|history| - 1];
      UnsweptAnswersAgree(before, lim);
      UnsweptMapIsSolo(before, lim, history[|history| - 1].key);
    }
  }

  /** The answers one key gets are those of a limiter that never saw any other key. */
  lemma {:induction false} AnswersDependOnOwnCallsOnly(history: seq<Call>, lim: Limits, key: string)
    ensures AnswersTo(history, Answers(history, lim), key) == SoloAnswers(TimesOf(history, key), lim)
  {
    if history == [] {
    } else {
      var n := |history| - 1;
      var before := history[..n];
      AnswersDependOnOwnCallsOnly(before, lim, key);
      assert Answers(history, lim)[..n] == Answers(before, lim);
      var times := TimesOf(before, key);
      if history[n].key == key {
        assert (times + [history[n].now])[..|times|] == times;
      } else {
        assert TimesOf(history, key) == times;
      }
    }
  }

  // ---------------------------------------------------------------- the limiter itself

  /** The calls were made on a non-decreasing clock that has not passed the given time. */
  ghost predicate InClockOrder(history: seq<Call>, clock: int) {
    if history == [] then true
    else
      var before, last := history[..|history| - 1], history[|history| - 1];
      last.now <= clock && InClockOrder(before, last.now)
  }

  lemma ClockMovesOn(history: seq<Call>, clock: int, later: int)
    requires InClockOrder(history, clock) && clock <= later
    ensures InClockOrder(history, later)
  {
  }

  lemma CallInClockOrder(history: seq<Call>, clock: int, call: Call)
    requires InClockOrder(history, clock) && clock <= call.now
    ensures InClockOrder(history + [call], call.now)
  {
    assert (history + [call])[..|history|] == history;
  }

  /** A remembered key is in its solo state; a forgotten one has outlived its window. */
  ghost predicate TracksKey(attempts: map<string, Attempt>, history: seq<Call>, clock: int, lim: Limits, key: string) {
    var solo := KeyState(TimesOf(history, key), lim);
    if key in attempts then solo == Some(attempts[key])
    else solo.None? || clock - solo.value.windowStart > lim.window
  }

  ghost predicate Tracks(attempts: map<string, Attempt>, history: seq<Call>, clock: int, lim: Limits) {
    forall key :: TracksKey(attempts, history, clock, lim, key)
  }

  function Swept(attempts: map<string, Attempt>, now: int, window: int): map<string, Attempt> {
    map k | k in attempts && now - attempts[k].windowStart <= window :: attempts[k]
  }

  lemma SweepKeepsTrack(attempts: map<string, Attempt>, history: seq<Call>, clock: int, now: int, lim: Limits)
    requires Tracks(attempts, history, clock, lim) && clock <= now
    ensures Tracks(Swept(attempts, now, lim.window), history, now, lim)
  {
    forall key ensures TracksKey(Swept(attempts, now, lim.window), history, now, lim, key) {
      assert TracksKey(attempts, history, clock, lim, key);
    }
  }

  /** Deciding from the swept map is deciding from the solo state, and it stays so. */
  lemma CallKeepsTrack(attempts: map<string, Attempt>, history: seq<Call>, clock: int, call: Call, lim: Limits)
    requires Tracks(attempts, history, clock, lim) && clock <= call.now
    ensures var solo, seen := KeyState(TimesOf(history, call.key), lim), Lookup(attempts, call.key);
            && Decide(seen, call.now, lim) == Decide(solo, call.now, lim)
            && Advance(seen, call.now, lim) == Advance(solo, call.now, lim)
    ensures Tracks(attempts[call.key := Advance(Lookup(attempts, call.key), call.now, lim)], history + [call],
            call.now, lim)
  {
    assert TracksKey(attempts, history, clock, lim, call.key);
    var after, all := attempts[call.key := Advance(Lookup(attempts, call.key), call.now, lim)], history + [call];
    forall key ensures TracksKey(after, all, call.now, lim, key)
    {
      assert TracksKey(attempts, history, clock, lim, key);
      StateAfter(history, call, key, lim);
    }
  }

  class LoginRateLimiter {
    var attempts: map<string, Attempt>
    const maxAttempts: int
    const window: int
    var sweepCounter: int
    ghost var history: seq<Call>
    ghost var answers: seq<bool>
    ghost var clock: int

    ghost function Lim(): Limits {
      Limits(maxAttempts, window)
    }

    ghost predicate Valid()
      reads this
    {
      && sweepCounter == |history|
      && answers == Answers(history, Lim())
      && InClockOrder(history, clock)
      && Tracks(attempts, history, clock, Lim())
    }

    constructor (maxAttempts: int, window: int, ghost now: int)
      ensures Valid() && clock == now
      ensures this.maxAttempts == maxAttempts && this.window == window
      ensures history == [] && attempts == map[]
    {
      attempts := map[];
      this.maxAttempts := maxAttempts;
      this.window := window;
      sweepCounter := 0;
      history, answers, clock := [], [], now;
    }

    /** Deletes every attempt whose window started more than one window before now. */
    method Sweep(now: int)
      modifies this`attempts
      ensures attempts == Swept(old(attempts), now, window)
    {
      var todo := attempts.Keys;
      while todo != {}
        invariant todo <= attempts.Keys <= old(attempts).Keys
        invariant forall k :: k in attempts ==> attempts[k] == old(attempts)[k]
        invariant forall k :: k in old(attempts) && k !in todo ==>
                                (k in attempts <==> now - old(attempts)[k].windowStart <= window)
        decreases |todo|
      {
        var k :| k in todo;
        if now - attempts[k].windowStart > window {
          attempts := attempts - {k};
        }
        todo := todo - {k};
      }
    }

    /** The part of Allow behind the sweep: decides on the key's attempt and updates it. */
    method Count(key: string, now: int) returns (ok: bool)
      modifies this`attempts
      ensures ok == Decide(Lookup(old(attempts), key), now, Lim())
      ensures attempts == old(attempts)[key := Advance(Lookup(old(attempts), key), now, Lim())]
    {
      if key !in attempts || now - attempts[key].windowStart >= window {
        attempts := attempts[key := Attempt(1, now)];
        ok := true;
      } else if attempts[key].count >= maxAttempts {
        ok := false;
      } else {
        attempts := attempts[key := attempts[key].(count := attempts[key].count + 1)];
        ok := true;
      }
    }

    method Allow(key: string, sweepNow: int, now: int) returns (ok: bool)
      requires Valid()
      requires clock <= sweepNow <= now
      modifies this
      ensures Valid()
      ensures history == old(history) + [Call(key, now)] && clock == now
      ensures answers == old(answers) + [ok]
      ensures ok == Decide(KeyState(TimesOf(old(history), key), Lim()), now, Lim())
      ensures attempts == var kept := if |history| % 100 == 0 then Swept(old(attempts), sweepNow, window)
                                      else old(attempts);
                          kept[key := Advance(Lookup(kept, key), now, Lim())]
    {
      sweepCounter := sweepCounter + 1;
      if sweepCounter % 100 == 0 {
        SweepKeepsTrack(attempts, history, clock, sweepNow, Lim());
        ClockMovesOn(history, clock, sweepNow);
        Sweep(sweepNow);
        clock := sweepNow;
      }
      CallKeepsTrack(attempts, history, clock, Call(key, now), Lim());
      ok := Count(key, now);
      CallInClockOrder(history, clock, Call(key, now));
      AnswerAfter(history, Call(key, now), Lim());
      history, answers, clock := history + [Call(key, now)], answers + [ok], now;
    }

    /** In every state a limiter can get into: whatever key and interval of one window length, it has not let
        more calls through than the bound. */
    lemma AnswersAreBounded(key: string, lo: int)
      requires Valid()
      ensures AllowedCalls(history, answers, key, lo, lo + window) <= MaxInWindow(Lim())
    {
      RunBound(history, clock, Lim(), key, lo);
    }
  }

  // ---------------------------------------------------------------- how many calls get through

  predicate NonDecreasing(times: seq<int>) {
    forall i, j :: 0 <= i < j < |times| ==> times[i] <= times[j]
  }

  /** Allowed calls whose time lies in [lo, hi). */
  function AllowedIn(times: seq<int>, lim: Limits, lo: int, hi: int): nat {
    if times == [] then 0
    else
      var before, now := times[..|times| - 1], times[|times| - 1];
      AllowedIn(before, lim, lo, hi) +
      if lo <= now < hi && Decide(KeyState(before, lim), now, lim) then 1 else 0
  }

  /** The effective limit: the first call of a window is let through whatever maxAttempts says. */
  function PerWindow(lim: Limits): (m: int)
    ensures m >= 1 && m >= lim.maxAttempts
  {
    if lim.maxAttempts < 1 then 1 else lim.maxAttempts
  }

  lemma {:induction false} AllowedInSplits(times: seq<int>, lim: Limits, lo: int, mid: int, hi: int)
    requires lo <= mid <= hi
    ensures AllowedIn(times, lim, lo, hi) == AllowedIn(times, lim, lo, mid) + AllowedIn(times, lim, mid, hi)
  {
    if times == [] {
    } else {
      AllowedInSplits(times[..|times| - 1], lim, lo, mid, hi);
    }
  }

  /** The current counting window: it covers the last call and has let through exactly its count. */
  lemma {:induction false} CountingWindow(times: seq<int>, lim: Limits, hi: int)
    requires lim.window > 0 && NonDecreasing(times) && times != []
    requires times[|times| - 1] < hi
    ensures var a := KeyState(times, lim).value;
            && a.windowStart <= times[|times| - 1] < a.windowStart + lim.window
            && AllowedIn(times, lim, a.windowStart, hi) == a.count
            && 1 <= a.count <= PerWindow(lim)
            && AllowedIn(times, lim, a.windowStart + 1, hi) < a.count
  {
    var n := |times| - 1;
    var before, now := times[..n], times[n];
    if before == [] {
      assert AllowedIn(before, lim, now, hi) == 0;
    } else {
      CountingWindow(before, lim, hi);
      var a := KeyState(before, lim).value;
      assert before[n - 1] <= now;
      if now - a.windowStart >= lim.window {
        NothingFrom(before, lim, now, hi);
        NothingFrom(before, lim, now + 1, hi);
      }
    }
  }

  lemma {:induction false} NothingFrom(times: seq<int>, lim: Limits, lo: int, hi: int)
    requires forall i :: 0 <= i < |times| ==> times[i] < lo
    ensures AllowedIn(times, lim, lo, hi) == 0
  {
    if times == [] {
    } else {
      NothingFrom(times[..|times| - 1], lim, lo, hi);
    }
  }

  /** Less than one window's worth of calls before the current window can hold at most M - 1 allowed ones. */
  lemma {:induction false} PreviousWindow(times: seq<int>, lim: Limits, lo: int)
    requires lim.window > 0 && NonDecreasing(times) && times != []
    requires KeyState(times, lim).value.windowStart - lim.window < lo <= KeyState(times, lim).value.windowStart
    ensures AllowedIn(times, lim, lo, KeyState(times, lim).value.windowStart) < PerWindow(lim)
  {
    var n := |times| - 1;
    var before, now := times[..n], times[n];
    if before == [] {
    } else {
      var a := KeyState(before, lim).value;
      assert before[n - 1] <= now;
      CountingWindow(before, lim, now + 1);
      if now - a.windowStart >= lim.window {
        AllowedInSplits(before, lim, lo, now, now + 1);
        AllowedInSplits(before, lim, a.windowStart + 1, lo, now + 1);
      } else {
        PreviousWindow(before, lim, lo);
      }
    }
  }

  lemma {:induction false} EmptyInterval(times: seq<int>, lim: Limits, lo: int, hi: int)
    requires hi <= lo
    ensures AllowedIn(times, lim, lo, hi) == 0
  {
    if times == [] {
    } else {
      EmptyInterval(times[..|times| - 1], lim, lo, hi);
    }
  }

  /** The most calls of one key that an interval of one window length can let through: nearly two windows'
      worth, because the end of one window and the beginning of the next fit into it; a window of one tick has
      no room for both. */
  function MaxInWindow(lim: Limits): nat {
    if lim.window <= 0 then 0
    else if lim.window == 1 then PerWindow(lim)
    else 2 * PerWindow(lim) - 1
  }

  /** No interval of one window length, wherever it starts, lets more calls of one key through. */
  lemma {:induction false} AnyWindowBound(times: seq<int>, lim: Limits, lo: int)
    requires NonDecreasing(times)
    ensures AllowedIn(times, lim, lo, lo + lim.window) <= MaxInWindow(lim)
  {
    if lim.window <= 0 {
      EmptyInterval(times, lim, lo, lo + lim.window);
    } else if times == [] {
    } else {
      var n := |times| - 1;
      var now := times[n];
      var ws, hi := KeyState(times, lim).value.windowStart, lo + lim.window;
      AnyWindowBound(times[..n], lim, lo);
      CountingWindow(times, lim, now + 1);
      if lo <= now < hi {
        CountingWindow(times, lim, hi);
        if lo <= ws {
          AllowedInSplits(times, lim, lo, ws, hi);
          PreviousWindow(times, lim, lo);
          if lim.window == 1 {
            EmptyInterval(times, lim, lo, ws);
          }
        } else {
          AllowedInSplits(times, lim, ws, lo, hi);
        }
      }
    }
  }

  /** The calls of one key in [lo, hi) that a run answered with yes. */
  function AllowedCalls(history: seq<Call>, answers: seq<bool>, key: string, lo: int, hi: int): nat
    requires |answers| == |history|
  {
    if history == [] then 0
    else
      var n := |history| - 1;
      AllowedCalls(history[..n], answers[..n], key, lo, hi) +
      if history[n].key == key && lo <= history[n].now < hi && answers[n] then 1 else 0
  }

  lemma {:induction false} AllowedCallsAreAllowedIn(history: seq<Call>, lim: Limits, key: string, lo: int, hi: int)
    ensures AllowedCalls(history, Answers(history, lim), key, lo, hi) == AllowedIn(TimesOf(history, key), lim, lo, hi)
  {
    if history == [] {
    } else {
      var n := |history| - 1;
      var times := TimesOf(history[..n], key);
      AllowedCallsAreAllowedIn(history[..n], lim, key, lo, hi);
      assert Answers(history, lim)[..n] == Answers(history[..n], lim);
      if history[n].key == key {
        assert (times + [history[n].now])[..|times|] == times;
      } else {
        assert TimesOf(history, key) == times;
      }
    }
  }

  lemma {:induction false} OwnTimesInOrder(history: seq<Call>, clock: int, key: string)
    requires InClockOrder(history, clock)
    ensures NonDecreasing(TimesOf(history, key))
    ensures forall i :: 0 <= i < |TimesOf(history, key)| ==> TimesOf(history, key)[i] <= clock
  {
    if history == [] {
    } else {
      OwnTimesInOrder(history[..|history| - 1], history[|history| - 1].now, key);
    }
  }

  /** In every run on a non-decreasing clock, whatever other keys do and whenever sweeps happen, any interval
      of one window length holds at most so many calls of a key that were answered with yes. */
  lemma RunBound(history: seq<Call>, clock: int, lim: Limits, key: string, lo: int)
    requires InClockOrder(history, clock)
    ensures AllowedCalls(history, Answers(history, lim), key, lo, lo + lim.window) <= MaxInWindow(lim)
  {
    AllowedCallsAreAllowedIn(history, lim, key, lo, lo + lim.window);
    OwnTimesInOrder(history, clock, key);
    AnyWindowBound(TimesOf(history, key), lim, lo);
  }

  // The bound is met: fill a window at its end, then fill the next one at once.

  function Repeat(t: int, n: nat): seq<int> { seq(n, i => t) }

  lemma {:induction false} Burst(times: seq<int>, lim: Limits, t: int, n: nat, lo: int, hi: int)
    requires times != []
    requires var a := KeyState(times, lim).value; t - a.windowStart < lim.window && a.count + n <= PerWindow(lim)
    requires KeyState(times, lim).value.count >= 1
    requires lo <= t < hi
    ensures var a := KeyState(times, lim).value;
            && KeyState(times + Repeat(t, n), lim) == Some(Attempt(a.count + n, a.windowStart))
            && AllowedIn(times + Repeat(t, n), lim, lo, hi) == AllowedIn(times, lim, lo, hi) + n
  {
    if n == 0 {
      assert times + Repeat(t, n) == times;
    } else {
      Burst(times, lim, t, n - 1, lo, hi);
      var all := times + Repeat(t, n);
      assert all[..|all| - 1] == times + Repeat(t, n - 1);
    }
  }

  /** A window filled at its end, and the next one filled as it opens. */
  lemma TwoFullWindows(lim: Limits) returns (times: seq<int>)
    requires lim.window > 1
    ensures NonDecreasing(times)
    ensures AllowedIn(times, lim, lim.window - 1, 2 * lim.window - 1) == 2 * PerWindow(lim) - 1
  {
    var w, m := lim.window, PerWindow(lim);
    var lo, hi := w - 1, 2 * w - 1;
    var one := [0];
    assert one[..0] == [];
    var two := one + Repeat(w - 1, m - 1);
    Burst(one, lim, w - 1, m - 1, lo, hi);
    var three := two + [w];
    assert three[..|three| - 1] == two;
    times := three + Repeat(w, m - 1);
    Burst(three, lim, w, m - 1, lo, hi);
  }

  lemma OneFullWindow(lim: Limits) returns (times: seq<int>)
    requires lim.window > 0
    ensures times == Repeat(0, PerWindow(lim)) && NonDecreasing(times)
    ensures AllowedIn(times, lim, 0, 1) == PerWindow(lim)
    ensures KeyState(times, lim) == Some(Attempt(PerWindow(lim), 0))
  {
    var one := [0];
    assert one[..0] == [];
    times := one + Repeat(0, PerWindow(lim) - 1);
    Burst(one, lim, 0, PerWindow(lim) - 1, 0, 1);
  }

  lemma FullestTimes(lim: Limits) returns (times: seq<int>, lo: int)
    ensures NonDecreasing(times)
    ensures AllowedIn(times, lim, lo, lo + lim.window) == MaxInWindow(lim)
  {
    lo := if lim.window > 1 then lim.window - 1 else 0;
    if lim.window <= 0 {
      times := [];
    } else if lim.window == 1 {
      times := OneFullWindow(lim);
    } else {
      times := TwoFullWindows(lim);
    }
  }

  /** One key's calls at these times. */
  function CallsOf(key: string, times: seq<int>): seq<Call> {
    if times == [] then [] else CallsOf(key, times[..|times| - 1]) + [Call(key, times[|times| - 1])]
  }

  lemma {:induction false} CallsOfIsARun(key: string, times: seq<int>)
    requires NonDecreasing(times)
    ensures TimesOf(CallsOf(key, times), key) == times
    ensures times != [] ==> InClockOrder(CallsOf(key, times), times[|times| - 1])
  {
    if times == [] {
    } else {
      var n := |times| - 1;
      var before := CallsOf(key, times[..n]);
      CallsOfIsARun(key, times[..n]);
      assert (before + [Call(key, times[n])])[..|before|] == before;
      if n > 0 {
        ClockMovesOn(before, times[n - 1], times[n]);
      }
    }
  }

  /** Whatever the limit and the window some run reaches the bound. */
  lemma AnyWindowBoundIsTight(lim: Limits) returns (history: seq<Call>, clock: int, key: string, lo: int)
    ensures InClockOrder(history, clock)
    ensures AllowedCalls(history, Answers(history, lim), key, lo, lo + lim.window) == MaxInWindow(lim)
  {
    var times;
    times, lo := FullestTimes(lim);
    key, clock := "key", if times == [] then 0 else times[|times| - 1];
    history := CallsOf(key, times);
    CallsOfIsARun(key, times);
    AllowedCallsAreAllowedIn(history, lim, key, lo, lo + lim.window);
  }

  // ---------------------------------------------------------------- when a window keeps to the configured limit

  lemma {:induction false} CountIsBounded(times: seq<int>, lim: Limits)
    requires times != []
    ensures 1 <= KeyState(times, lim).value.count <= PerWindow(lim)
  {
    if |times| == 1 {
      assert times[..0] == [];
    } else {
      CountIsBounded(times[..|times| - 1], lim);
    }
  }

  /** No counting window of any run ever lets more than maxAttempts calls through exactly when maxAttempts is at
      least one: the first call of a window is let through without a look at the limit. */
  lemma WithinMaxAttemptsIff(lim: Limits)
    ensures (forall times | NonDecreasing(times) && times != [] :: KeyState(times, lim).value.count <= lim.maxAttempts)
            <==> lim.maxAttempts >= 1
  {
    if lim.maxAttempts < 1 {
      FirstCallPasses(lim);
    } else {
      forall times | NonDecreasing(times) && times != []
        ensures KeyState(times, lim).value.count <= lim.maxAttempts
      {
        CountIsBounded(times, lim);
      }
    }
  }

  /** Whatever the limit, zero and negative ones included, a first call is let through and counts. */
  lemma FirstCallPasses(lim: Limits)
    ensures NonDecreasing([0]) && SoloAnswers([0], lim) == [true] && KeyState([0], lim) == Some(Attempt(1, 0))
  {
    var one: seq<int> := [0];
    assert one[..0] == [];
  }

  // ---------------------------------------------------------------- when a call is refused

  /** In any run, a call is refused exactly if its key's current window is still open and has already let as many of
      the key's calls through as are allowed. */
  lemma RefusedIff(history: seq<Call>, call: Call, lim: Limits)
    requires lim.window > 0 && InClockOrder(history, call.now)
    ensures var times := TimesOf(history, call.key);
            Answers(history + [call], lim)[|history|] == false <==>
            times != [] &&
            var start := KeyState(times, lim).value.windowStart;
            && start <= call.now < start + lim.window
            && AllowedCalls(history, Answers(history, lim), call.key, start, call.now + 1) >= lim.maxAttempts
  {
    var times := TimesOf(history, call.key);
    AnswerAfter(history, call, lim);
    OwnTimesInOrder(history, call.now, call.key);
    if times != [] {
      CountingWindow(times, lim, call.now + 1);
      AllowedCallsAreAllowedIn(history, lim, call.key, KeyState(times, lim).value.windowStart, call.now + 1);
    }
  }

  /** A key that has been quiet for a whole window, or was never seen, is let through. */
  lemma QuietKeyPasses(history: seq<Call>, call: Call, lim: Limits)
    requires lim.window > 0 && InClockOrder(history, call.now)
    requires forall i :: 0 <= i < |history| && history[i].key == call.key ==> history[i].now + lim.window <= call.now
    ensures Answers(history + [call], lim)[|history|] == true
  {
    var times := TimesOf(history, call.key);
    AnswerAfter(history, call, lim);
    OwnTimesInOrder(history, call.now, call.key);
    if times != [] {
      CountingWindow(times, lim, call.now + 1);
      TimesAreOwn(history, call.key, |times| - 1);
    }
  }

  lemma {:induction false} TimesAreOwn(history: seq<Call>, key: string, k: nat)
    requires k < |TimesOf(history, key)|
    ensures exists i :: 0 <= i < |history| && history[i].key == key && history[i].now == TimesOf(history, key)[k]
  {
    var n := |history| - 1;
    if k < |TimesOf(history[..n], key)| {
      TimesAreOwn(history[..n], key, k);
      var i :| 0 <= i < n && history[..n][i].key == key && history[..n][i].now == TimesOf(history[..n], key)[k];
      assert history[i].key == key && history[i].now == TimesOf(history, key)[k];
    } else {
      assert history[n].key == key;
    }
  }

  // ---------------------------------------------------------------- when nothing is limited

  /** Without a positive window every call opens a window of its own. */
  lemma {:induction false} EachCallItsWindow(times: seq<int>, lim: Limits)
    requires lim.window <= 0 && NonDecreasing(times) && times != []
    ensures KeyState(times, lim) == Some(Attempt(1, times[|times| - 1]))
  {
    var n := |times| - 1;
    if n == 0 {
      assert times[..0] == [];
    } else {
      EachCallItsWindow(times[..n], lim);
      assert times[..n][n - 1] <= times[n];
    }
  }

  lemma {:induction false} AllPass(history: seq<Call>, clock: int, lim: Limits)
    requires lim.window <= 0 && InClockOrder(history, clock)
    ensures false !in Answers(history, lim)
  {
    if history == [] {
    } else {
      var n := |history| - 1;
      var times := TimesOf(history[..n], history[n].key);
      AllPass(history[..n], history[n].now, lim);
      OwnTimesInOrder(history[..n], history[n].now, history[n].key);
      if times != [] {
        EachCallItsWindow(times, lim);
      }
    }
  }

  /** One call more than a window lets through is refused. */
  lemma RefusedAfter(before: seq<Call>, call: Call, lim: Limits)
    requires lim.window > 0 && InClockOrder(before, call.now)
    requires KeyState(TimesOf(before, call.key), lim) == Some(Attempt(PerWindow(lim), call.now))
    ensures InClockOrder(before + [call], call.now) && false in Answers(before + [call], lim)
  {
    CallInClockOrder(before, call.now, call);
    AnswerAfter(before, call, lim);
    assert (Answers(before, lim) + [false])[|before|] == false;
  }

  lemma OneTooMany(lim: Limits) returns (history: seq<Call>)
    requires lim.window > 0
    ensures InClockOrder(history, 0) && false in Answers(history, lim)
  {
    var full := OneFullWindow(lim);
    CallsOfIsARun("key", full);
    assert full[|full| - 1] == 0;
    RefusedAfter(CallsOf("key", full), Call("key", 0), lim);
    history := CallsOf("key", full) + [Call("key", 0)];
  }

  ghost predicate LetsAllThrough(history: seq<Call>, clock: int, lim: Limits) {
    InClockOrder(history, clock) ==> false !in Answers(history, lim)
  }

  /** Over all runs on a non-decreasing clock every call is let through exactly when the window is not positive. */
  lemma EveryCallPassesIff(lim: Limits)
    ensures (forall history, clock :: LetsAllThrough(history, clock, lim)) <==> lim.window <= 0
  {
    if lim.window <= 0 {
      forall history, clock ensures LetsAllThrough(history, clock, lim) {
        if InClockOrder(history, clock) {
          AllPass(history, clock, lim);
        }
      }
    } else {
      var history := OneTooMany(lim);
      assert !LetsAllThrough(history, 0, lim);
    }
  }
}
