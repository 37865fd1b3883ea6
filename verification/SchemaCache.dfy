/**
 The two cache levels behind schema lookups, under concurrency: derived codecs and descriptors
 (getCodec in internal/serde/avro.go, getDescriptor in internal/serde/protobuf.go) above the schema
 cache with its single flight (GetSchemaByID in internal/schema/client.go).

 Any number of goroutines take steps in any order.  A step is one access to shared state or the
 outcome of one fetch; the registry's schemas never change, and a fetch may fail at any time.
 */
module SchemaCache {
  import opened Wrappers

  datatype Format = Avro | Protobuf

  /** The registry's schema for an id, and what a format makes of a schema (None if it does not parse). */
  datatype World = World(schemaOf: int -> string, derive: (Format, string) -> Option<int>)

  /** A lookup of a schema, or of what a format derives from it. */
  datatype Job = Job(id: int, format: Option<Format>)

  datatype Answer = Schema(schema: string) | Value(value: int) | Failure

  /** Where a lookup stands; the number is that of its flight. */
  datatype Pc =
    | AskDerived
    | AskSchema
    | Missed
    | Waiting(call: nat)
    | Fetching(call: nat)
    | Fetched(call: nat, schema: string)
    | Stored(call: nat, schema: string)
    | FetchFailed(call: nat)
    | GotSchema(schema: string)
    | Made(value: int)
    | Done(answer: Answer)

  /** A goroutine; late says that the schema was already stored when its lookup began. */
  datatype Thread = Thread(job: Job, pc: Pc, late: bool)

  /** A flight: pending under its leader, or landed with a schema or a failure. */
  datatype Call = Pending(id: int, leader: nat) | Landed(id: int, schema: Option<string>)

  datatype State = State(
    schemas: map<int, string>,
    derived: map<(Format, int), int>,
    flights: map<int, nat>,
    calls: map<nat, Call>,
    threads: map<nat, Thread>)

  const INITIAL := State(map[], map[], map[], map[], map[])

  // ---------------------------------------------------------------- steps

  datatype Action =
    | LoadDerived
    | LoadSchema
    | EnterFlight(call: nat)
    | FetchOk
    | FetchErr
    | StoreSchema
    | Land
    | LandFailed
    | Wake
    | Derive
    | StoreDerived

  datatype Step = Begin(t: nat, job: Job) | Act(t: nat, action: Action)

  function Move(s: State, t: nat, pc: Pc): State
    requires t in s.threads
  {
    s.(threads := s.threads[t := s.threads[t].(pc := pc)])
  }

  predicate CanAct(s: State, t: nat, action: Action) {
    t in s.threads &&
    var pc := s.threads[t].pc;
    match action
    case LoadDerived => pc.AskDerived? && s.threads[t].job.format.Some?
    case LoadSchema => pc.AskSchema?
    case EnterFlight(call) => pc.Missed? && call !in s.calls
    case FetchOk => pc.Fetching?
    case FetchErr => pc.Fetching?
    case StoreSchema => pc.Fetched?
    case Land => pc.Stored?
    case LandFailed => pc.FetchFailed?
    case Wake => pc.Waiting? && pc.call in s.calls && s.calls[pc.call].Landed?
    case Derive => pc.GotSchema?
    case StoreDerived => pc.Made? && s.threads[t].job.format.Some?
  }

  /** The step can be taken now. */
  predicate Enabled(s: State, step: Step) {
    match step
    case Begin(t, _) => t !in s.threads
    case Act(t, action) => CanAct(s, t, action)
  }

  /** The flight leaves the group, and what it brought is there for all who wait. */
  function EndFlight(s: State, id: int, call: nat, result: Option<string>): State {
    s.(calls := s.calls[call := Landed(id, result)], flights := s.flights - {id})
  }

  function AfterDerive(w: World, job: Job, schema: string): Pc {
    match job.format
    case None => Done(Schema(schema))
    case Some(f) => (match w.derive(f, schema) case Some(d) => Made(d) case None => Done(Failure))
  }

  function AfterWait(result: Option<string>): Pc {
    match result case Some(schema) => GotSchema(schema) case None => Done(Failure)
  }

  function Perform(w: World, s: State, t: nat, action: Action): State
    requires CanAct(s, t, action)
  {
    var job, pc := s.threads[t].job, s.threads[t].pc;
    match action
    case LoadDerived =>
      var key := (job.format.value, job.id);
      Move(s, t, if key in s.derived then Done(Value(s.derived[key])) else AskSchema)
    case LoadSchema => Move(s, t, if job.id in s.schemas then GotSchema(s.schemas[job.id]) else Missed)
    case EnterFlight(call) =>
      if job.id in s.flights then Move(s, t, Waiting(s.flights[job.id]))
      else
        Move(s, t, Fetching(call)).(flights := s.flights[job.id := call], calls := s.calls[call := Pending(job.id, t)])
    case FetchOk => Move(s, t, Fetched(pc.call, w.schemaOf(job.id)))
    case FetchErr => Move(s, t, FetchFailed(pc.call))
    case StoreSchema => Move(s, t, Stored(pc.call, pc.schema)).(schemas := s.schemas[job.id := pc.schema])
    case Land => EndFlight(Move(s, t, GotSchema(pc.schema)), job.id, pc.call, Some(pc.schema))
    case LandFailed => EndFlight(Move(s, t, Done(Failure)), job.id, pc.call, None)
    case Wake => Move(s, t, AfterWait(s.calls[pc.call].schema))
    case Derive => Move(s, t, AfterDerive(w, job, pc.schema))
    case StoreDerived =>
      Move(s, t, Done(Value(pc.value))).(derived := s.derived[(job.format.value, job.id) := pc.value])
  }

  function Next(w: World, s: State, step: Step): State
    requires Enabled(s, step)
  {
    match step
    case Begin(t, job) =>
      var first := if job.format.Some? then AskDerived else AskSchema;
      s.(threads := s.threads[t := Thread(job, first, job.id in s.schemas)])
    case Act(t, action) => Perform(w, s, t, action)
  }

  ghost predicate Runs(w: World, steps: seq<Step>, s: State) {
    if steps == [] then s == INITIAL
    else
      var n := |steps| - 1;
      exists before :: Runs(w, steps[..n], before) && Enabled(before, steps[n]) && s == Next(w, before, steps[n])
  }

  // ---------------------------------------------------------------- what every step keeps

  /** What a lookup must answer. */
  predicate Correct(w: World, job: Job, a: Answer) {
    match a
    case Schema(schema) => job.format.None? && schema == w.schemaOf(job.id)
    case Value(d) => job.format.Some? && w.derive(job.format.value, w.schemaOf(job.id)) == Some(d)
    case Failure => true
  }

  predicate Leads(pc: Pc) {
    pc.Fetching? || pc.Fetched? || pc.Stored? || pc.FetchFailed?
  }

  /** The schemas and derived values a goroutine carries are those of its id. */
  predicate CarriesCorrect(w: World, th: Thread) {
    match th.pc
    case AskDerived => th.job.format.Some?
    case Fetched(_, schema) => schema == w.schemaOf(th.job.id)
    case Stored(_, schema) => schema == w.schemaOf(th.job.id)
    case GotSchema(schema) => schema == w.schemaOf(th.job.id)
    case Made(d) => Correct(w, th.job, Value(d))
    case Done(a) => Correct(w, th.job, a)
    case _ => true
  }

  /** A goroutine that began after the schema was stored stays clear of the flight, and fails only on a
      schema that does not parse. */
  predicate StaysClear(w: World, th: Thread) {
    && (th.pc.AskDerived? || th.pc.AskSchema? || th.pc.GotSchema? || th.pc.Made? || th.pc.Done?)
    && (th.pc == Done(Failure) ==> th.job.format.Some? && w.derive(th.job.format.value, w.schemaOf(th.job.id)) == None)
  }

  ghost predicate ThreadOk(w: World, s: State, t: nat)
    requires t in s.threads
  {
    var th := s.threads[t];
    && CarriesCorrect(w, th)
    && (Leads(th.pc) ==> th.pc.call in s.calls && s.calls[th.pc.call] == Pending(th.job.id, t))
    && (th.pc.Waiting? ==> th.pc.call in s.calls && s.calls[th.pc.call].id == th.job.id)
    && (th.late ==> th.job.id in s.schemas && StaysClear(w, th))
  }

  /** A pending flight is the one registered for its id and has its leader at work; a landed one brought the id's
      schema. */
  ghost predicate CallOk(w: World, s: State, c: nat)
    requires c in s.calls
  {
    match s.calls[c]
    case Pending(id, t) =>
      && id in s.flights && s.flights[id] == c
      && t in s.threads && Leads(s.threads[t].pc) && s.threads[t].pc.call == c && s.threads[t].job.id == id
    case Landed(id, schema) => schema.Some? ==> schema.value == w.schemaOf(id)
  }

  ghost predicate CachesOk(w: World, s: State) {
    && (forall id :: id in s.schemas ==> s.schemas[id] == w.schemaOf(id))
    && (forall k :: k in s.derived ==> w.derive(k.0, w.schemaOf(k.1)) == Some(s.derived[k]))
  }

  ghost predicate FlightOk(s: State, id: int)
    requires id in s.flights
  {
    s.flights[id] in s.calls && s.calls[s.flights[id]].Pending? && s.calls[s.flights[id]].id == id
  }

  ghost predicate Inv(w: World, s: State) {
    && CachesOk(w, s)
    && (forall t :: t in s.threads ==> ThreadOk(w, s, t))
    && (forall c :: c in s.calls ==> CallOk(w, s, c))
    && (forall id :: id in s.flights ==> FlightOk(s, id))
  }

  /** A step that moves one goroutine and leaves caches and flights alone. */
  lemma PrivateMoveKeepsInv(w: World, s: State, t: nat, pc: Pc)
    requires Inv(w, s) && t in s.threads
    requires var th := s.threads[t].(pc := pc);
             && CarriesCorrect(w, th) && (th.late ==> StaysClear(w, th))
             && Leads(pc) == Leads(s.threads[t].pc) && (Leads(pc) ==> pc.call == s.threads[t].pc.call)
             && (pc.Waiting? ==> pc.call in s.calls && s.calls[pc.call].id == th.job.id)
    ensures Inv(w, Move(s, t, pc))
  {
    var next := Move(s, t, pc);
    forall u | u in next.threads ensures ThreadOk(w, next, u) {
      assert ThreadOk(w, s, u);
    }
    forall c | c in next.calls ensures CallOk(w, next, c) {
      assert CallOk(w, s, c);
    }
    forall id | id in next.flights ensures FlightOk(next, id) {
      assert FlightOk(s, id);
    }
  }

  lemma BeginKeepsInv(w: World, s: State, t: nat, job: Job)
    requires Inv(w, s) && t !in s.threads
    ensures Inv(w, Next(w, s, Begin(t, job)))
  {
    var next := Next(w, s, Begin(t, job));
    forall u | u in next.threads ensures ThreadOk(w, next, u) {
      if u != t { assert ThreadOk(w, s, u); }
    }
    forall c | c in next.calls ensures CallOk(w, next, c) {
      assert CallOk(w, s, c);
    }
    forall id | id in next.flights ensures FlightOk(next, id) {
      assert FlightOk(s, id);
    }
  }

  lemma TakeOffKeepsInv(w: World, s: State, t: nat, call: nat)
    requires Inv(w, s) && CanAct(s, t, EnterFlight(call)) && s.threads[t].job.id !in s.flights
    ensures Inv(w, Perform(w, s, t, EnterFlight(call)))
  {
    var next := Perform(w, s, t, EnterFlight(call));
    assert ThreadOk(w, s, t);
    forall u | u in next.threads ensures ThreadOk(w, next, u) {
      assert ThreadOk(w, s, u);
    }
    forall c | c in next.calls ensures CallOk(w, next, c) {
      if c != call { assert CallOk(w, s, c); }
    }
    forall id | id in next.flights ensures FlightOk(next, id) {
      if id != s.threads[t].job.id { assert FlightOk(s, id); }
    }
  }

  lemma CachingKeepsInv(w: World, s: State, id: int, k: (Format, int), d: int)
    requires Inv(w, s)
    ensures Inv(w, s.(schemas := s.schemas[id := w.schemaOf(id)]))
    ensures w.derive(k.0, w.schemaOf(k.1)) == Some(d) ==> Inv(w, s.(derived := s.derived[k := d]))
  {
    var one, two := s.(schemas := s.schemas[id := w.schemaOf(id)]), s.(derived := s.derived[k := d]);
    forall u | u in s.threads ensures ThreadOk(w, one, u) && ThreadOk(w, two, u) {
      assert ThreadOk(w, s, u);
    }
    forall c | c in s.calls ensures CallOk(w, one, c) && CallOk(w, two, c) {
      assert CallOk(w, s, c);
    }
    forall i | i in s.flights ensures FlightOk(one, i) && FlightOk(two, i) {
      assert FlightOk(s, i);
    }
  }

  /** A leader that is through, with the schema or without, ends its flight. */
  lemma EndFlightKeepsInv(w: World, s: State, t: nat, pc: Pc, result: Option<string>)
    requires Inv(w, s) && t in s.threads && Leads(s.threads[t].pc)
    requires var th := s.threads[t].(pc := pc);
             && !Leads(pc) && !pc.Waiting? && CarriesCorrect(w, th)
             && (result.Some? ==> result.value == w.schemaOf(th.job.id))
    ensures Inv(w, EndFlight(Move(s, t, pc), s.threads[t].job.id, s.threads[t].pc.call, result))
  {
    var next := EndFlight(Move(s, t, pc), s.threads[t].job.id, s.threads[t].pc.call, result);
    assert ThreadOk(w, s, t);
    var call := s.threads[t].pc.call;
    assert CallOk(w, s, call);
    forall u | u in next.threads ensures ThreadOk(w, next, u) {
      assert ThreadOk(w, s, u);
    }
    forall c | c in next.calls ensures CallOk(w, next, c) {
      assert CallOk(w, s, c);
    }
    forall id | id in next.flights ensures FlightOk(next, id) {
      assert FlightOk(s, id);
      assert CallOk(w, s, s.flights[id]);
    }
  }

  /** The actions that only move the goroutine. */
  lemma PrivateActKeepsInv(w: World, s: State, t: nat, action: Action)
    requires Inv(w, s) && CanAct(s, t, action)
    requires action.LoadDerived? || action.LoadSchema? || action.FetchOk? || action.FetchErr? || action.Wake? ||
             action.Derive?
    ensures Inv(w, Perform(w, s, t, action))
  {
    assert ThreadOk(w, s, t);
    if action.Wake? {
      assert CallOk(w, s, s.threads[t].pc.call);
    }
    var pc := Perform(w, s, t, action).threads[t].pc;
    assert Perform(w, s, t, action) == Move(s, t, pc);
    PrivateMoveKeepsInv(w, s, t, pc);
  }

  lemma ActKeepsInv(w: World, s: State, t: nat, action: Action)
    requires Inv(w, s) && CanAct(s, t, action)
    ensures Inv(w, Perform(w, s, t, action))
  {
    assert ThreadOk(w, s, t);
    var job, pc := s.threads[t].job, s.threads[t].pc;
    match action {
      case EnterFlight(call) =>
        if job.id in s.flights {
          assert FlightOk(s, job.id);
          PrivateMoveKeepsInv(w, s, t, Waiting(s.flights[job.id]));
        } else {
          TakeOffKeepsInv(w, s, t, call);
        }
      case StoreSchema =>
        PrivateMoveKeepsInv(w, s, t, Stored(pc.call, pc.schema));
        CachingKeepsInv(w, Move(s, t, Stored(pc.call, pc.schema)), job.id, (Avro, 0), 0);
      case StoreDerived =>
        PrivateMoveKeepsInv(w, s, t, Done(Value(pc.value)));
        CachingKeepsInv(w, Move(s, t, Done(Value(pc.value))), 0, (job.format.value, job.id), pc.value);
      case Land => EndFlightKeepsInv(w, s, t, GotSchema(pc.schema), Some(pc.schema));
      case LandFailed => EndFlightKeepsInv(w, s, t, Done(Failure), None);
      case _ => PrivateActKeepsInv(w, s, t, action);
    }
  }

  lemma StepKeepsInv(w: World, s: State, step: Step)
    requires Inv(w, s) && Enabled(s, step)
    ensures Inv(w, Next(w, s, step))
  {
    match step {
      case Begin(t, job) => BeginKeepsInv(w, s, t, job);
      case Act(t, action) => ActKeepsInv(w, s, t, action);
    }
  }

  lemma {:induction false} RunsKeepInv(w: World, steps: seq<Step>, s: State)
    requires Runs(w, steps, s)
    ensures Inv(w, s)
  {
    if steps == [] {
    } else {
      var n := |steps| - 1;
      var before :| Runs(w, steps[..n], before) && Enabled(before, steps[n]) && s == Next(w, before, steps[n]);
      RunsKeepInv(w, steps[..n], before);
      StepKeepsInv(w, before, steps[n]);
    }
  }

  // ---------------------------------------------------------------- successes are remembered

  /** The goroutine has its id's schema, and has had it stored or found it stored. */
  predicate HasSchema(pc: Pc) {
    pc.Stored? || pc.GotSchema? || pc.Made? || (pc.Done? && pc.answer != Failure)
  }

  ghost predicate ThreadRemembered(s: State, t: nat)
    requires t in s.threads
  {
    var th := s.threads[t];
    && (HasSchema(th.pc) ==> th.job.id in s.schemas)
    && (th.pc.Done? && th.pc.answer.Value? ==> th.job.format.Some? && (th.job.format.value, th.job.id) in s.derived)
  }

  /** What was fetched is in the schema cache, and what was derived in the derived one. */
  ghost predicate Remembered(s: State) {
    && (forall t :: t in s.threads ==> ThreadRemembered(s, t))
    && (forall c :: c in s.calls && s.calls[c].Landed? && s.calls[c].schema.Some? ==> s.calls[c].id in s.schemas)
    && (forall k :: k in s.derived ==> k.1 in s.schemas)
  }

  lemma BeginKeepsRemembered(w: World, s: State, t: nat, job: Job)
    requires Remembered(s) && t !in s.threads
    ensures Remembered(Next(w, s, Begin(t, job)))
  {
    var next := Next(w, s, Begin(t, job));
    forall u | u in next.threads ensures ThreadRemembered(next, u) {
      if u != t { assert ThreadRemembered(s, u); }
    }
  }

  /** The goroutine that moves, and the caches. */
  lemma ActRemembers(w: World, s: State, t: nat, action: Action)
    requires Inv(w, s) && Remembered(s) && CanAct(s, t, action)
    ensures var next := Perform(w, s, t, action);
            && t in next.threads && ThreadRemembered(next, t)
            && s.schemas.Keys <= next.schemas.Keys && s.derived.Keys <= next.derived.Keys
  {
    assert ThreadOk(w, s, t) && ThreadRemembered(s, t);
  }

  lemma ActKeepsRemembered(w: World, s: State, t: nat, action: Action)
    requires Inv(w, s) && Remembered(s) && CanAct(s, t, action)
    ensures Remembered(Perform(w, s, t, action))
  {
    assert ThreadOk(w, s, t) && ThreadRemembered(s, t);
    ActRemembers(w, s, t, action);
    ActMovesOne(w, s, t, action);
    var next := Perform(w, s, t, action);
    forall u | u in next.threads ensures ThreadRemembered(next, u) {
      assert u != t ==> ThreadRemembered(s, u);
    }
  }

  lemma {:induction false} RunsRemember(w: World, steps: seq<Step>, s: State)
    requires Runs(w, steps, s)
    ensures Remembered(s)
  {
    if steps == [] {
    } else {
      var n := |steps| - 1;
      var before :| Runs(w, steps[..n], before) && Enabled(before, steps[n]) && s == Next(w, before, steps[n]);
      RunsRemember(w, steps[..n], before);
      RunsKeepInv(w, steps[..n], before);
      match steps[n] {
        case Begin(t, job) => BeginKeepsRemembered(w, before, t, job);
        case Act(t, action) => ActKeepsRemembered(w, before, t, action);
      }
    }
  }

  /** After any successful lookup of an id, a new lookup of that id begins late, that is, it will not fetch;
      and if it asks for the same derived value, its first step answers it. */
  lemma SuccessIsRemembered(w: World, steps: seq<Step>, s: State, t: nat, u: nat, job: Job)
    requires Runs(w, steps, s) && t in s.threads && s.threads[t].pc.Done? && s.threads[t].pc.answer != Failure
    requires u !in s.threads && job.id == s.threads[t].job.id
    ensures var next := Next(w, s, Begin(u, job));
            && next.threads[u].late
            && (job == s.threads[t].job && job.format.Some? ==>
                  CanAct(next, u, LoadDerived) && Perform(w, next, u, LoadDerived).threads[u].pc == s.threads[t].pc)
  {
    RunsRemember(w, steps, s);
    RunsKeepInv(w, steps, s);
    assert ThreadRemembered(s, t) && ThreadOk(w, s, t);
  }

  // ---------------------------------------------------------------- the promises

  /** In every interleaving, whatever a lookup answers is what the registry's schema gives; the caches never
      hold anything else, so no failure is ever cached. */
  lemma AnswersAreCorrect(w: World, steps: seq<Step>, s: State, t: nat)
    requires Runs(w, steps, s) && t in s.threads && s.threads[t].pc.Done?
    ensures Correct(w, s.threads[t].job, s.threads[t].pc.answer)
    ensures CachesOk(w, s)
  {
    RunsKeepInv(w, steps, s);
    assert ThreadOk(w, s, t);
  }

  /** A lookup that begins after the schema was stored never enters a flight, hence never fetches, and
      succeeds unless the schema does not parse. */
  lemma StoredSchemaIsNotFetchedAgain(w: World, steps: seq<Step>, s: State, t: nat)
    requires Runs(w, steps, s) && t in s.threads && s.threads[t].late
    ensures forall call :: !CanAct(s, t, EnterFlight(call))
    ensures !CanAct(s, t, FetchOk) && !CanAct(s, t, FetchErr) && !CanAct(s, t, Wake)
    ensures s.threads[t].pc == Done(Failure) ==>
              var job := s.threads[t].job;
              job.format.Some? && w.derive(job.format.value, w.schemaOf(job.id)).None?
  {
    RunsKeepInv(w, steps, s);
    assert ThreadOk(w, s, t);
  }

  /** The flag is right: a lookup is late exactly if the schema was there when it began, and stays what it was. */
  lemma LateMeansStoredAtBegin(w: World, s: State, step: Step, t: nat)
    requires Enabled(s, step) && t in Next(w, s, step).threads
    ensures Next(w, s, step).threads[t].late ==
            if t in s.threads then s.threads[t].late else step.Begin? && step.t == t && step.job.id in s.schemas
  {
    if step.Act? {
      ActMovesOne(w, s, step.t, step.action);
    }
  }

  lemma ActMovesOne(w: World, s: State, t: nat, action: Action)
    requires CanAct(s, t, action)
    ensures var next := Perform(w, s, t, action);
            && next.threads == s.threads[t := s.threads[t].(pc := next.threads[t].pc)]
            && Remaining(next.threads[t].pc) < Remaining(s.threads[t].pc)
  {
  }

  /** Two goroutines never fetch the same id at the same time. */
  lemma OneFetchPerId(w: World, steps: seq<Step>, s: State, t: nat, u: nat)
    requires Runs(w, steps, s) && t in s.threads && u in s.threads
    requires Leads(s.threads[t].pc) && Leads(s.threads[u].pc) && s.threads[t].job.id == s.threads[u].job.id
    ensures t == u
  {
    RunsKeepInv(w, steps, s);
    assert ThreadOk(w, s, t) && ThreadOk(w, s, u);
    assert CallOk(w, s, s.threads[t].pc.call) && CallOk(w, s, s.threads[u].pc.call);
  }

  // ---------------------------------------------------------------- who fetches a schema that is stored

  lemma {:induction false} RunsUnique(w: World, steps: seq<Step>, s: State, s': State)
    requires Runs(w, steps, s) && Runs(w, steps, s')
    ensures s == s'
  {
    if steps == [] {
    } else {
      var n := |steps| - 1;
      var before :| Runs(w, steps[..n], before) && Enabled(before, steps[n]) && s == Next(w, before, steps[n]);
      var before' :| Runs(w, steps[..n], before') && Enabled(before', steps[n]) && s' == Next(w, before', steps[n]);
      RunsUnique(w, steps[..n], before, before');
    }
  }

  /** The goroutine's last step in the run was a look into the schema cache when the schema was not there. */
  ghost predicate MissedLast(w: World, steps: seq<Step>, t: nat, id: int) {
    steps != [] &&
    var before, last := steps[..|steps| - 1], steps[|steps| - 1];
    if last.t == t then last == Act(t, LoadSchema) && exists s :: Runs(w, before, s) && id !in s.schemas
    else MissedLast(w, before, t, id)
  }

  lemma MissesIff(w: World, s: State, t: nat, action: Action)
    requires CanAct(s, t, action)
    ensures Perform(w, s, t, action).threads[t].pc.Missed? <==> action.LoadSchema? && s.threads[t].job.id !in s.schemas
  {
  }

  lemma {:induction false} MissedIff(w: World, steps: seq<Step>, s: State, t: nat)
    requires Runs(w, steps, s) && t in s.threads
    ensures s.threads[t].pc.Missed? <==> MissedLast(w, steps, t, s.threads[t].job.id)
  {
    if steps == [] {
    } else {
      var n := |steps| - 1;
      var before :| Runs(w, steps[..n], before) && Enabled(before, steps[n]) && s == Next(w, before, steps[n]);
      if steps[n].Act? {
        ActMovesOne(w, before, steps[n].t, steps[n].action);
        MissesIff(w, before, steps[n].t, steps[n].action);
      }
      if steps[n].t != t {
        MissedIff(w, steps[..n], before, t);
      } else if steps[n] == Act(t, LoadSchema) && MissedLast(w, steps, t, s.threads[t].job.id) {
        var other :| Runs(w, steps[..n], other) && s.threads[t].job.id !in other.schemas;
        RunsUnique(w, steps[..n], before, other);
      }
    }
  }

  /** While a schema is stored, a goroutine starts to fetch it exactly if it looked into the cache before the store
      and has not moved since, and no flight for the id is under way: the flight does not look into the cache again. */
  lemma FetchesStoredIff(w: World, steps: seq<Step>, s: State, t: nat, call: nat)
    requires Runs(w, steps, s) && t in s.threads && call !in s.calls && s.threads[t].job.id in s.schemas
    ensures CanAct(s, t, EnterFlight(call)) && Perform(w, s, t, EnterFlight(call)).threads[t].pc.Fetching? <==>
            MissedLast(w, steps, t, s.threads[t].job.id) && s.threads[t].job.id !in s.flights
  {
    MissedIff(w, steps, s, t);
  }

  lemma Extend(w: World, before: seq<Step>, s: State, step: Step) returns (steps: seq<Step>, s': State)
    requires Runs(w, before, s) && Enabled(s, step)
    ensures Runs(w, steps, s') && s' == Next(w, s, step)
  {
    steps, s' := before + [step], Next(w, s, step);
    assert steps[..|before|] == before;
  }

  /** A goroutine begins a lookup and misses. */
  lemma BeginsAndMisses(w: World, before: seq<Step>, s: State, t: nat, id: int) returns (steps: seq<Step>, s': State)
    requires Runs(w, before, s) && t !in s.threads && id !in s.schemas
    ensures Runs(w, steps, s') && s' == s.(threads := s.threads[t := Thread(Job(id, None), Missed, false)])
  {
    steps, s' := Extend(w, before, s, Begin(t, Job(id, None)));
    steps, s' := Extend(w, steps, s', Act(t, LoadSchema));
    assert s'.threads == s.threads[t := Thread(Job(id, None), Missed, false)];
  }

  /** A goroutine that missed leads a flight, and its fetch succeeds. */
  lemma TakesOffAndFetches(w: World, before: seq<Step>, s: State, t: nat, call: nat)
    returns (steps: seq<Step>, s': State)
    requires Runs(w, before, s) && t in s.threads && s.threads[t].pc.Missed?
    requires call !in s.calls && s.threads[t].job.id !in s.flights
    ensures Runs(w, steps, s')
    ensures var th := s.threads[t];
            s' == s.(flights := s.flights[th.job.id := call], calls := s.calls[call := Pending(th.job.id, t)],
                     threads := s.threads[t := th.(pc := Fetched(call, w.schemaOf(th.job.id)))])
  {
    var th := s.threads[t];
    steps, s' := Extend(w, before, s, Act(t, EnterFlight(call)));
    steps, s' := Extend(w, steps, s', Act(t, FetchOk));
    assert s'.threads == s.threads[t := th.(pc := Fetched(call, w.schemaOf(th.job.id)))];
  }

  /** A goroutine that fetched stores and lands. */
  lemma StoresAndLands(w: World, before: seq<Step>, s: State, t: nat) returns (steps: seq<Step>, s': State)
    requires Runs(w, before, s) && t in s.threads && s.threads[t].pc.Fetched?
    ensures Runs(w, steps, s')
    ensures var th := s.threads[t];
            && s'.schemas == s.schemas[th.job.id := th.pc.schema] && s'.flights == s.flights - {th.job.id}
            && s'.calls == s.calls[th.pc.call := Landed(th.job.id, Some(th.pc.schema))]
            && s'.threads == s.threads[t := th.(pc := GotSchema(th.pc.schema))]
  {
    steps, s' := Extend(w, before, s, Act(t, StoreSchema));
    steps, s' := Extend(w, steps, s', Act(t, Land));
  }

  /** So an id can be fetched twice with success: the second goroutine missed before the store and enters after the
      first flight has landed. */
  lemma FetchedTwice(w: World, id: int) returns (steps: seq<Step>, s: State)
    ensures Runs(w, steps, s) && id in s.schemas
    ensures 1 in s.threads && s.threads[1].pc.Fetched? && s.threads[1].job.id == id
  {
    steps, s := BeginsAndMisses(w, [], INITIAL, 0, id);
    steps, s := BeginsAndMisses(w, steps, s, 1, id);
    steps, s := TakesOffAndFetches(w, steps, s, 0, 0);
    steps, s := StoresAndLands(w, steps, s, 0);
    steps, s := TakesOffAndFetches(w, steps, s, 1, 1);
  }

  // ---------------------------------------------------------------- every lookup comes to an end

  /** How many steps a goroutine can still take. */
  function Remaining(pc: Pc): nat {
    match pc
    case AskDerived => 9
    case AskSchema => 8
    case Missed => 7
    case Fetching(_) => 6
    case Fetched(_, _) => 5
    case Stored(_, _) => 4
    case FetchFailed(_) => 4
    case Waiting(_) => 3
    case GotSchema(_) => 2
    case Made(_) => 1
    case Done(_) => 0
  }

  /** Every step brings its goroutine closer to the end and moves no other. */
  lemma StepsAdvance(w: World, s: State, step: Step, u: nat)
    requires Enabled(s, step) && u in s.threads
    ensures u in Next(w, s, step).threads
    ensures var before, after := s.threads[u].pc, Next(w, s, step).threads[u].pc;
            if u == step.t then Remaining(after) < Remaining(before) else after == before
  {
    if step.Act? {
      ActMovesOne(w, s, step.t, step.action);
    }
  }

  /** The next action of a goroutine that does not wait. */
  function NextAction(pc: Pc, fresh_: nat): Action
    requires !pc.Waiting? && !pc.Done?
  {
    match pc
    case AskDerived => LoadDerived
    case AskSchema => LoadSchema
    case Missed => EnterFlight(fresh_)
    case Fetching(_) => FetchErr
    case Fetched(_, _) => StoreSchema
    case Stored(_, _) => Land
    case FetchFailed(_) => LandFailed
    case GotSchema(_) => Derive
    case Made(_) => StoreDerived
  }

  /** No deadlock: an unfinished lookup can take a step itself, or waits for a leader that can. */
  lemma UnfinishedCanStep(w: World, steps: seq<Step>, s: State, t: nat) returns (u: nat, action: Action)
    requires Runs(w, steps, s) && t in s.threads && !s.threads[t].pc.Done?
    ensures CanAct(s, u, action)
    ensures u == t || (s.threads[t].pc.Waiting? && Leads(s.threads[u].pc) &&
            s.threads[u].pc.call == s.threads[t].pc.call)
  {
    RunsKeepInv(w, steps, s);
    assert ThreadOk(w, s, t);
    u := t;
    if s.threads[t].pc.Waiting? {
      assert CallOk(w, s, s.threads[t].pc.call);
      if s.calls[s.threads[t].pc.call].Landed? {
        return t, Wake;
      }
      u := s.calls[s.threads[t].pc.call].leader;
    }
    var call := FreshCall(s.calls.Keys);
    action := NextAction(s.threads[u].pc, call);
  }

  lemma {:induction false} FreshCall(used: set<nat>) returns (c: nat)
    ensures forall n :: n in used ==> n < c
    decreases |used|
  {
    if used == {} {
      c := 0;
    } else {
      var n :| n in used;
      c := FreshCall(used - {n});
      c := if n < c then c else n + 1;
      assert forall m :: m in used ==> m == n || m in used - {n};
    }
  }
}
