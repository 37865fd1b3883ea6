/**
 When a schema, codec or descriptor lookup fails, over every interleaving: only because the schema does not parse,
 or because the fetch of the flight it led or joined failed.
 */
module SchemaFailures {
  import opened Wrappers
  import opened SchemaCache

  // ---------------------------------------------------------------- what happened to flights in a run

  /** The goroutine enters the flight with this step: the one under way for its id, or a new one. */
  predicate EntersNow(s: State, step: Step, t: nat, c: nat) {
    && step.Act? && step.t == t && step.action.EnterFlight? && t in s.threads
    && c == if s.threads[t].job.id in s.flights then s.flights[s.threads[t].job.id] else step.action.call
  }

  /** The fetch of the flight fails with this step. */
  predicate FailsNow(s: State, step: Step, c: nat) {
    step.Act? && step.action == FetchErr && step.t in s.threads && s.threads[step.t].pc == Fetching(c)
  }

  /** At some step of the run the goroutine entered the flight. */
  ghost predicate Entered(w: World, steps: seq<Step>, t: nat, c: nat) {
    steps != [] &&
    var n := |steps| - 1;
    Entered(w, steps[..n], t, c) || exists s :: Runs(w, steps[..n], s) && EntersNow(s, steps[n], t, c)
  }

  /** At some step of the run the fetch of the flight failed. */
  ghost predicate FetchFailedIn(w: World, steps: seq<Step>, c: nat) {
    steps != [] &&
    var n := |steps| - 1;
    FetchFailedIn(w, steps[..n], c) || exists s :: Runs(w, steps[..n], s) && FailsNow(s, steps[n], c)
  }

  lemma LastStep(w: World, steps: seq<Step>, before: State, t: nat, c: nat)
    requires steps != [] && Runs(w, steps[..|steps| - 1], before)
    ensures Entered(w, steps, t, c) <==>
            Entered(w, steps[..|steps| - 1], t, c) || EntersNow(before, steps[|steps| - 1], t, c)
    ensures FetchFailedIn(w, steps, c) <==>
            FetchFailedIn(w, steps[..|steps| - 1], c) || FailsNow(before, steps[|steps| - 1], c)
  {
    var n := |steps| - 1;
    if s :| Runs(w, steps[..n], s) && (EntersNow(s, steps[n], t, c) || FailsNow(s, steps[n], c)) {
      RunsUnique(w, steps[..n], s, before);
    }
  }

  // ---------------------------------------------------------------- what every state says about it

  predicate Unparsable(w: World, job: Job) {
    job.format.Some? && w.derive(job.format.value, w.schemaOf(job.id)) == None
  }

  predicate HasCall(pc: Pc) {
    pc.Waiting? || Leads(pc)
  }

  /** What a goroutine's stage says of the flights it entered; the sets are those of this goroutine and of the
      flights whose fetch failed. */
  ghost predicate StageTells(w: World, s: State, th: Thread, entered: iset<nat>, failed: iset<nat>) {
    match th.pc
    case AskDerived => entered == iset{}
    case AskSchema => entered == iset{}
    case Missed => entered == iset{}
    case Done(Failure) => Unparsable(w, th.job) || exists c :: c in entered && c in failed
    case _ =>
      if HasCall(th.pc) then entered == iset{th.pc.call} && th.pc.call in s.calls
      else forall c :: c in entered ==> c in s.calls && s.calls[c].Landed? && s.calls[c].schema.Some?
  }

  /** A flight's fetch has failed exactly if its leader is about to report it or it has landed without a schema. */
  ghost predicate FlightTells(s: State, c: nat, failed: bool) {
    failed <==> c in s.calls &&
                match s.calls[c]
                case Pending(_, t) => t in s.threads && s.threads[t].pc.FetchFailed?
                case Landed(_, schema) => schema.None?
  }

  ghost function EnteredBy(w: World, steps: seq<Step>, t: nat): iset<nat> {
    iset c: nat | Entered(w, steps, t, c)
  }

  ghost function FailedFlights(w: World, steps: seq<Step>): iset<nat> {
    iset c: nat | FetchFailedIn(w, steps, c)
  }

  // ---------------------------------------------------------------- every step keeps it

  /** The flights the goroutine enters, and the flights that fail, with this step. */
  ghost function Entering(s: State, step: Step, t: nat): iset<nat> {
    iset c: nat | EntersNow(s, step, t, c)
  }

  ghost function Failing(s: State, step: Step): iset<nat> {
    iset c: nat | FailsNow(s, step, c)
  }

  ghost predicate FlightsTell(s: State, failed: iset<nat>) {
    forall c :: FlightTells(s, c, c in failed)
  }

  lemma BeginTells(w: World, s: State, t: nat, job: Job, failed: iset<nat>)
    requires Inv(w, s) && Enabled(s, Begin(t, job)) && FlightsTell(s, failed)
    ensures FlightsTell(Next(w, s, Begin(t, job)), failed)
    ensures var next := Next(w, s, Begin(t, job)); StageTells(w, next, next.threads[t], iset{}, failed)
  {
    var next := Next(w, s, Begin(t, job));
    forall c ensures FlightTells(next, c, c in failed) {
      assert FlightTells(s, c, c in failed);
      assert c in s.calls ==> CallOk(w, s, c);
    }
  }

  lemma ActFlightsTell(w: World, s: State, t: nat, action: Action, failed: iset<nat>)
    requires Inv(w, s) && CanAct(s, t, action) && FlightsTell(s, failed)
    ensures FlightsTell(Perform(w, s, t, action), failed + Failing(s, Act(t, action)))
  {
    var next, failed' := Perform(w, s, t, action), failed + Failing(s, Act(t, action));
    assert ThreadOk(w, s, t);
    forall c ensures FlightTells(next, c, c in failed') {
      assert FlightTells(s, c, c in failed);
      assert c in s.calls ==> CallOk(w, s, c);
    }
  }

  /** The goroutine that moves, unless it ends a flight, wakes up or enters one. */
  lemma QuietMoverTells(w: World, s: State, t: nat, action: Action, entered: iset<nat>, failed: iset<nat>)
    requires Inv(w, s) && CanAct(s, t, action) && !action.EnterFlight?
    requires !action.LandFailed? && !action.Wake? && !action.Land?
    requires StageTells(w, s, s.threads[t], entered, failed)
    ensures var next := Perform(w, s, t, action);
            StageTells(w, next, next.threads[t], entered, failed + Failing(s, Act(t, action)))
  {
    assert ThreadOk(w, s, t);
  }

  lemma EnteringTells(w: World, s: State, t: nat, call: nat, failed: iset<nat>)
    requires Inv(w, s) && CanAct(s, t, EnterFlight(call))
    ensures var next := Perform(w, s, t, EnterFlight(call));
            StageTells(w, next, next.threads[t], Entering(s, Act(t, EnterFlight(call)), t), failed)
  {
    var th, next := s.threads[t], Perform(w, s, t, EnterFlight(call));
    assert ThreadOk(w, s, t);
    if th.job.id in s.flights {
      assert FlightOk(s, th.job.id);
    }
    assert Entering(s, Act(t, EnterFlight(call)), t) == iset{next.threads[t].pc.call};
  }

  /** A goroutine that ends its flight or learns how the flight it waited for ended. */
  lemma LeavingTells(w: World, s: State, t: nat, action: Action, entered: iset<nat>, failed: iset<nat>)
    requires Inv(w, s) && CanAct(s, t, action) && (action.LandFailed? || action.Wake? || action.Land?)
    requires FlightsTell(s, failed) && StageTells(w, s, s.threads[t], entered, failed)
    ensures var next := Perform(w, s, t, action); StageTells(w, next, next.threads[t], entered, failed)
  {
    var th := s.threads[t];
    assert ThreadOk(w, s, t);
    assert FlightTells(s, th.pc.call, th.pc.call in failed);
    assert th.pc.call in entered;
  }

  lemma MoverTells(w: World, s: State, t: nat, action: Action, entered: iset<nat>, failed: iset<nat>)
    requires Inv(w, s) && CanAct(s, t, action) && FlightsTell(s, failed)
    requires StageTells(w, s, s.threads[t], entered, failed)
    ensures var next := Perform(w, s, t, action);
            StageTells(w, next, next.threads[t], entered + Entering(s, Act(t, action), t),
                       failed + Failing(s, Act(t, action)))
  {
    var enters, fails := Entering(s, Act(t, action), t), Failing(s, Act(t, action));
    if action.EnterFlight? {
      assert entered + enters == enters && failed + fails == failed;
      EnteringTells(w, s, t, action.call, failed);
    } else {
      assert entered + enters == entered;
      if action.LandFailed? || action.Wake? || action.Land? {
        assert failed + fails == failed;
        LeavingTells(w, s, t, action, entered, failed);
      } else {
        QuietMoverTells(w, s, t, action, entered, failed);
      }
    }
  }

  /** The goroutines that do not move. */
  lemma OtherTells(w: World, s: State, t: nat, action: Action, u: nat, entered: iset<nat>, failed: iset<nat>)
    requires Inv(w, s) && CanAct(s, t, action) && u in s.threads && u != t
    requires StageTells(w, s, s.threads[u], entered, failed)
    ensures StageTells(w, Perform(w, s, t, action), s.threads[u], entered, failed + Failing(s, Act(t, action)))
  {
    var next := Perform(w, s, t, action);
    assert ThreadOk(w, s, t);
    CallsStay(w, s, t, action);
  }

  lemma CallsStay(w: World, s: State, t: nat, action: Action)
    requires Inv(w, s) && CanAct(s, t, action)
    ensures var next := Perform(w, s, t, action);
            forall c :: c in s.calls ==> c in next.calls && (s.calls[c].Landed? ==> next.calls[c] == s.calls[c])
  {
    assert ThreadOk(w, s, t);
  }

  // ---------------------------------------------------------------- runs

  lemma StepSets(w: World, steps: seq<Step>, before: State, t: nat)
    requires steps != [] && Runs(w, steps[..|steps| - 1], before)
    ensures EnteredBy(w, steps, t) == EnteredBy(w, steps[..|steps| - 1], t) + Entering(before, steps[|steps| - 1], t)
    ensures FailedFlights(w, steps) == FailedFlights(w, steps[..|steps| - 1]) + Failing(before, steps[|steps| - 1])
  {
    forall c: nat
      ensures c in EnteredBy(w, steps, t) <==>
              c in EnteredBy(w, steps[..|steps| - 1], t) + Entering(before, steps[|steps| - 1], t)
      ensures c in FailedFlights(w, steps) <==>
              c in FailedFlights(w, steps[..|steps| - 1]) + Failing(before, steps[|steps| - 1])
    {
      LastStep(w, steps, before, t, c);
    }
  }

  lemma {:induction false} RunFlightsTell(w: World, steps: seq<Step>, s: State)
    requires Runs(w, steps, s)
    ensures FlightsTell(s, FailedFlights(w, steps))
  {
    if steps == [] {
    } else {
      var n := |steps| - 1;
      var before :| Runs(w, steps[..n], before) && Enabled(before, steps[n]) && s == Next(w, before, steps[n]);
      RunFlightsTell(w, steps[..n], before);
      RunsKeepInv(w, steps[..n], before);
      StepSets(w, steps, before, 0);
      match steps[n] {
        case Begin(t, job) =>
          BeginTells(w, before, t, job, FailedFlights(w, steps[..n]));
          assert Failing(before, steps[n]) == iset{};
        case Act(t, action) => ActFlightsTell(w, before, t, action, FailedFlights(w, steps[..n]));
      }
    }
  }

  lemma {:induction false} RunStageTells(w: World, steps: seq<Step>, s: State, t: nat)
    requires Runs(w, steps, s)
    ensures t in s.threads ==>
              StageTells(w, s, s.threads[t], EnteredBy(w, steps, t), FailedFlights(w, steps))
    ensures t !in s.threads ==> EnteredBy(w, steps, t) == iset{}
  {
    if steps == [] {
    } else {
      var n := |steps| - 1;
      var before :| Runs(w, steps[..n], before) && Enabled(before, steps[n]) && s == Next(w, before, steps[n]);
      RunStageTells(w, steps[..n], before, t);
      RunsKeepInv(w, steps[..n], before);
      RunFlightsTell(w, steps[..n], before);
      StepSets(w, steps, before, t);
      StepTells(w, before, steps[n], t, EnteredBy(w, steps[..n], t), FailedFlights(w, steps[..n]));
    }
  }

  lemma StepTells(w: World, s: State, step: Step, t: nat, entered: iset<nat>, failed: iset<nat>)
    requires Inv(w, s) && Enabled(s, step) && FlightsTell(s, failed)
    requires t in s.threads ==> StageTells(w, s, s.threads[t], entered, failed)
    requires t !in s.threads ==> entered == iset{}
    ensures var next := Next(w, s, step);
            && (t in next.threads ==>
                  StageTells(w, next, next.threads[t], entered + Entering(s, step, t), failed + Failing(s, step)))
            && (t !in next.threads ==> entered + Entering(s, step, t) == iset{})
  {
    match step {
      case Begin(u, job) =>
        BeginTells(w, s, u, job, failed);
        assert entered + Entering(s, step, t) == entered && failed + Failing(s, step) == failed;
      case Act(u, action) =>
        ActMovesOne(w, s, u, action);
        if u == t {
          MoverTells(w, s, t, action, entered, failed);
        } else {
          assert entered + Entering(s, step, t) == entered;
          if t in s.threads {
            OtherTells(w, s, u, action, t, entered, failed);
          }
        }
    }
  }

  /** In every interleaving a finished lookup has failed exactly if the id's schema does not parse in its format, or
      it led or joined a flight whose fetch failed. */
  lemma FailsIff(w: World, steps: seq<Step>, s: State, t: nat)
    requires Runs(w, steps, s) && t in s.threads && s.threads[t].pc.Done?
    ensures s.threads[t].pc.answer == Failure <==>
            || (s.threads[t].job.format.Some? &&
                w.derive(s.threads[t].job.format.value, w.schemaOf(s.threads[t].job.id)) == None)
            || exists c :: Entered(w, steps, t, c) && FetchFailedIn(w, steps, c)
  {
    RunStageTells(w, steps, s, t);
    RunFlightsTell(w, steps, s);
    AnswersAreCorrect(w, steps, s, t);
    var entered, failed := EnteredBy(w, steps, t), FailedFlights(w, steps);
    if s.threads[t].pc.answer == Failure {
      if c :| c in entered && c in failed {
        assert Entered(w, steps, t, c) && FetchFailedIn(w, steps, c);
      }
    } else {
      forall c ensures !(Entered(w, steps, t, c) && FetchFailedIn(w, steps, c)) {
        assert Entered(w, steps, t, c) ==> c in entered;
        assert FlightTells(s, c, c in failed);
      }
    }
  }

  /** So where every fetch succeeds and the schema parses, every lookup answers. */
  lemma AnswersWithoutFailures(w: World, steps: seq<Step>, s: State, t: nat)
    requires Runs(w, steps, s) && t in s.threads && s.threads[t].pc.Done?
    requires forall i :: 0 <= i < |steps| ==> !(steps[i].Act? && steps[i].action == FetchErr)
    requires s.threads[t].job.format.Some? ==>
               w.derive(s.threads[t].job.format.value, w.schemaOf(s.threads[t].job.id)).Some?
    ensures s.threads[t].pc.answer ==
            match s.threads[t].job.format
            case None => Schema(w.schemaOf(s.threads[t].job.id))
            case Some(f) => Value(w.derive(f, w.schemaOf(s.threads[t].job.id)).value)
  {
    FailsIff(w, steps, s, t);
    AnswersAreCorrect(w, steps, s, t);
    if c :| Entered(w, steps, t, c) && FetchFailedIn(w, steps, c) {
      NoFailedFetch(w, steps, c);
    }
  }

  lemma {:induction false} NoFailedFetch(w: World, steps: seq<Step>, c: nat)
    requires forall i :: 0 <= i < |steps| ==> !(steps[i].Act? && steps[i].action == FetchErr)
    ensures !FetchFailedIn(w, steps, c)
  {
    if steps == [] {
    } else {
      NoFailedFetch(w, steps[..|steps| - 1], c);
    }
  }
}
