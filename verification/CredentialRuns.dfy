/**
 * Every interleaving of one credential: the callbacks of LogonUI, any number of
 * concurrent `GetSerialization` calls, the detached workers, the clock and COM
 * reference counting. A step is one critical section; its label fixes the outcome of
 * everything outside the program, so a run is a sequence of labels.
 */
module CredentialRuns {
  import opened Basics
  import opened Wide
  import opened Credential

  // ----- States, steps and the history they leave

  datatype Event =
    | Ticked
    | EventsSet(present: bool)
    | Referenced
    | Dereferenced
    | DisplayChanged
    | Refreshed(available: bool)
    | Deselected
    | Began(attempt: nat)
    | ThreadStarted(attempt: nat)
    | BeginFailed(result: BeginResult)
    | WorkerDone(worker: nat, proof: Option<Bytes>)
    | WorkerGone(worker: nat)
    | Taken(call: nat, proof: Option<Bytes>)
    | PackingFailed(call: nat)
    | Withheld(call: nat, why: CompletionResult)
    | Released(call: nat, secret: Bytes)

  /** An event with `generation_` and the clock as they stand right after it. */
  datatype Entry = Entry(event: Event, generation: nat, at: nat)

  datatype Pending = Pending(attempt: nat, secret: Bytes)

  /**
   * `running` holds the attempts that were begun and whose worker has not run its finish
   * section, `leaving` those whose worker has run it but not yet released the object.
   * `launching` says that `begin` is between its AddRef and the end of its attempt to start
   * a thread, holding the mutex. `starting` counts the `GetSerialization` calls that took no
   * proof and have not called `begin` yet; `calls` holds those that took one and are packing
   * it. `external` counts references held outside the object and `destroyed` the runs of its
   * destructor.
   */
  datatype System = System(fields: Fields, now: nat, running: set<nat>, leaving: set<nat>, launching: bool,
                           starting: nat, calls: map<nat, Pending>, nextCall: nat, external: nat, destroyed: nat,
                           log: seq<Entry>)

  datatype Label =
    | Tick(milliseconds: nat)
    | SetEvents(present: bool)
    | AddReference
    | DropReference
    | DisplayChange          // credential-level Advise or UnAdvise
    | Refresh                // ready(), from SetSelected or GetCredentialCount
    | Deselect               // SetDeselected, also from ReportResult and provider teardown
    | Take
    | Start(preparation: Preparation)   // begin, up to its AddRef
    | Launch(threadRuns: bool)          // the rest of begin, with its Release if there is no thread
    | WorkerFinish(worker: nat, unlocked: Option<Bytes>)
    | WorkerRelease(worker: nat)
    | PackFails(call: nat)
    | Complete(call: nat, hasBuffer: bool)

  function InitialSystem(events: bool, now: nat): System {
    System(Initial(events), now, {}, {}, false, 0, map[], 0, 1, 0, [])
  }

  /** The steps that take the mutex. */
  predicate Locks(l: Label) {
    l.SetEvents? || l.Refresh? || l.Deselect? || l.Take? || l.Start? || l.WorkerFinish? || l.Complete?
  }

  /**
   * A call into the object needs a reference held by its caller until it returns; while `begin`
   * holds the mutex only reference counting, packing and the clock go on.
   */
  predicate Enabled(s: System, l: Label) {
    (s.launching ==> !Locks(l)) &&
    match l
    case Tick(_) => true
    case SetEvents(_) => s.external > 0
    case AddReference => s.external > 0
    case DropReference => s.external > 1 || (s.external == 1 && s.starting == 0 && !s.launching && s.calls == map[])
    case DisplayChange => s.external > 0
    case Refresh => s.external > 0
    case Deselect => s.external > 0
    case Take => s.external > 0
    case Start(_) => s.starting > 0
    case Launch(_) => s.launching
    case WorkerFinish(worker, _) => worker in s.running
    case WorkerRelease(worker) => worker in s.leaving
    case PackFails(call) => call in s.calls
    case Complete(call, _) => call in s.calls
  }

  function Logged(s: System, e: Event): System {
    s.(log := s.log + [Entry(e, s.fields.generation, s.now)])
  }

  /** `--references_`, running the destructor at zero. */
  function Dereference(s: System): System {
    var left := if s.fields.references > 0 then s.fields.references - 1 else 0;
    s.(fields := s.fields.(references := left), destroyed := if left == 0 then s.destroyed + 1 else s.destroyed)
  }

  function Step(s: System, l: Label): System
    requires Enabled(s, l)
  {
    match l
    case Tick(ms) => Logged(s.(now := s.now + ms), Ticked)
    case SetEvents(present) => Logged(s.(fields := s.fields.(events := present)), EventsSet(present))
    case AddReference =>
      Logged(s.(fields := s.fields.(references := s.fields.references + 1), external := s.external + 1), Referenced)
    case DropReference => Logged(Dereference(s).(external := s.external - 1), Dereferenced)
    case DisplayChange => Logged(s, DisplayChanged)
    case Refresh =>
      var (fields, available) := ReadySection(s.fields, s.now);
      Logged(s.(fields := fields), Refreshed(available))
    case Deselect => Logged(s.(fields := DeselectSection(s.fields)), Deselected)
    case Take => StepTake(s)
    case Start(preparation) => StepStart(s, preparation)
    case Launch(threadRuns) => StepLaunch(s, threadRuns)
    case WorkerFinish(worker, unlocked) =>
      var proof := Checked(unlocked);
      Logged(s.(fields := FinishSection(s.fields, worker, proof, s.now),
                running := s.running - {worker}, leaving := s.leaving + {worker}), WorkerDone(worker, proof))
    case WorkerRelease(worker) => Logged(Dereference(s).(leaving := s.leaving - {worker}), WorkerGone(worker))
    case PackFails(call) => Logged(s.(calls := s.calls - {call}), PackingFailed(call))
    case Complete(call, hasBuffer) => StepComplete(s, call, hasBuffer)
  }

  function StepTake(s: System): System {
    var (fields, proof) := TakeSection(s.fields, s.now);
    var taken := s.(fields := fields, nextCall := s.nextCall + 1);
    Logged(if proof.Some? then taken.(calls := s.calls[s.nextCall := Pending(s.fields.generation, proof.value)])
           else taken.(starting := s.starting + 1),
           Taken(s.nextCall, proof))
  }

  function StepStart(s: System, preparation: Preparation): System
    requires s.starting > 0
  {
    var (fields, result) := EnterSection(s.fields, preparation);
    var begun := s.(fields := fields, starting := s.starting - 1);
    if result.Started?
    then Logged(begun.(running := s.running + {result.attempt}, launching := true), Began(result.attempt))
    else Logged(begun, BeginFailed(result))
  }

  /** `begin` still holds the mutex, so the attempt is the current generation. */
  function StepLaunch(s: System, threadRuns: bool): System {
    var attempt := s.fields.generation;
    var returned := s.(launching := false);
    if threadRuns then Logged(returned, ThreadStarted(attempt)) else
    var idle := Dereference(returned).(running := s.running - {attempt});
    Logged(idle.(fields := idle.fields.(working := false)), BeginFailed(NoThread(attempt)))
  }

  function StepComplete(s: System, call: nat, hasBuffer: bool): System
    requires call in s.calls
  {
    var result := CompletionSection(s.fields, s.calls[call].attempt, hasBuffer);
    Logged(s.(calls := s.calls - {call}),
           if result.Produced? then Released(call, s.calls[call].secret) else Withheld(call, result))
  }

  /** The state a run reaches, if each of its steps is possible where it is taken. */
  function Execute(start: System, labels: seq<Label>): Option<System> {
    if labels == [] then Some(start) else
    var before := Execute(start, labels[..|labels| - 1]);
    var l := labels[|labels| - 1];
    if before.Some? && Enabled(before.value, l) then Some(Step(before.value, l)) else None
  }

  /** Some run of a newly created credential ends in `s`. */
  ghost predicate Reachable(s: System) {
    exists events, now, labels :: Execute(InitialSystem(events, now), labels) == Some(s)
  }

  /** `begin` as one call is its two steps, one after the other, with the matching last event. */
  lemma BeginIsItsSteps(s: System, preparation: Preparation, threadRuns: bool)
    requires s.starting > 0 && !s.launching
    ensures var (fields, result) := BeginSection(s.fields, preparation, threadRuns);
            var started := StepStart(s, preparation);
            var end := if started.launching then StepLaunch(started, threadRuns) else started;
            && end.fields == fields && !end.launching
            && end.log[|end.log| - 1].event ==
               (if result.Started? then ThreadStarted(result.attempt) else BeginFailed(result))
            && end.running == s.running + (if result.Started? then {result.attempt} else {}) -
                              (if result.NoThread? then {result.bumped} else {})
  {
  }

  /** Every other section of the object is one step, and no other step changes more than the reference count. */
  lemma StepsAreSections(s: System, l: Label)
    requires Enabled(s, l)
    ensures var fields := Step(s, l).fields;
            match l
            case SetEvents(present) => fields == s.fields.(events := present)
            case Refresh => fields == ReadySection(s.fields, s.now).0
            case Deselect => fields == DeselectSection(s.fields)
            case Take => fields == TakeSection(s.fields, s.now).0
            case Start(_) => true
            case Launch(_) => true
            case WorkerFinish(worker, unlocked) => fields == FinishSection(s.fields, worker, Checked(unlocked), s.now)
            case _ => fields == s.fields.(references := fields.references)
  {
  }

  /** Nobody who holds a reference is ever blocked, except by a `begin` inside the mutex, which can always go on. */
  lemma CallersAreNotBlocked(s: System, l: Label)
    ensures s.launching ==> Enabled(s, Launch(true)) && Enabled(s, Launch(false))
    ensures s.external > 0 && !s.launching ==>
              (l.SetEvents? || l.Refresh? || l.Deselect? || l.Take? ==> Enabled(s, l))
    ensures l.Tick? || (s.external > 0 && (l.AddReference? || l.DisplayChange?)) ==> Enabled(s, l)
    ensures s.external > 1 && l.DropReference? ==> Enabled(s, l)
    ensures s.starting > 0 && !s.launching && l.Start? ==> Enabled(s, l)
    ensures l.WorkerFinish? && l.worker in s.running && !s.launching ==> Enabled(s, l)
    ensures l.WorkerRelease? && l.worker in s.leaving ==> Enabled(s, l)
    ensures l.PackFails? && l.call in s.calls ==> Enabled(s, l)
    ensures l.Complete? && l.call in s.calls && !s.launching ==> Enabled(s, l)
  {
  }

  // ----- The inductive invariant

  predicate Bump(e: Event) {
    e.Began? || e.Deselected?
  }

  ghost predicate Ordered(s: System) {
    && (forall i | 0 <= i < |s.log| :: s.log[i].generation <= s.fields.generation && s.log[i].at <= s.now)
    && (forall i | 0 <= i < |s.log| && s.log[i].event.Began? :: s.log[i].event.attempt == s.log[i].generation)
    && (forall i, j | 0 <= i < j < |s.log| ::
          && s.log[i].generation <= s.log[j].generation
          && s.log[i].at <= s.log[j].at
          && (Bump(s.log[j].event) ==> s.log[i].generation < s.log[j].generation))
  }

  ghost predicate HasBegun(log: seq<Entry>, before: nat, attempt: nat) {
    exists b :: 0 <= b < before && b < |log| && log[b].event == Began(attempt)
  }

  /** `working_` is set exactly while one worker has not run its finish section. */
  ghost predicate OneWorker(s: System) {
    WorkersTracked(s) && WorkersLogged(s)
  }

  ghost predicate WorkersTracked(s: System) {
    && (s.fields.working <==> s.running != {})
    && (forall a, b | a in s.running && b in s.running :: a == b)
    && s.running !! s.leaving
    && (s.launching ==> s.fields.generation in s.running)
    && (forall a | a in s.running :: a <= s.fields.generation)
    && (forall a | a in s.leaving :: a <= s.fields.generation)
  }

  ghost predicate WorkersLogged(s: System) {
    && (forall i | 0 <= i < |s.log| && s.log[i].event.WorkerDone? :: s.log[i].event.worker <= s.fields.generation)
    && (forall a | a in s.running :: HasBegun(s.log, |s.log|, a))
    && (forall a, i | a in s.running && 0 <= i < |s.log| :: s.log[i].event.WorkerDone? ==> s.log[i].event.worker != a)
  }

  ghost predicate DoneJustified(log: seq<Entry>) {
    DoneBegun(log) && DoneOnce(log)
  }

  ghost predicate DoneBegun(log: seq<Entry>) {
    forall d | 0 <= d < |log| && log[d].event.WorkerDone? ::
      && HasBegun(log, d, log[d].event.worker)
      && (log[d].event.proof.Some? ==> WellFormedPassword(log[d].event.proof.value))
  }

  ghost predicate DoneOnce(log: seq<Entry>) {
    forall c, d | 0 <= c < d < |log| && log[c].event.WorkerDone? && log[d].event.WorkerDone? ::
      log[c].event.worker != log[d].event.worker
  }

  predicate TookProof(e: Event) {
    e.Taken? && e.proof.Some?
  }

  /** The worker of `attempt` reported `proof` before position `before`, no more than 30000 ms before `deadline`. */
  ghost predicate Proved(log: seq<Entry>, before: nat, attempt: nat, proof: Option<Bytes>, deadline: nat) {
    exists d :: 0 <= d < before && d < |log| && log[d].event == WorkerDone(attempt, proof) &&
                log[d].generation == attempt && deadline <= log[d].at + READY_LIFETIME
  }

  ghost predicate TakesJustified(log: seq<Entry>) {
    && (forall t | 0 <= t < |log| && TookProof(log[t].event) ::
          Proved(log, t, log[t].generation, log[t].event.proof, log[t].at))
    && (forall t, u | 0 <= t < u < |log| && TookProof(log[t].event) && TookProof(log[u].event) ::
          log[t].generation != log[u].generation)
  }

  /** A ready secret is the report of the worker of the current generation, and nobody took it. */
  ghost predicate ReadyJustified(s: System) {
    s.fields.ready.Some? ==>
      && !s.fields.working
      && s.fields.readyAt <= s.now
      && Proved(s.log, |s.log|, s.fields.generation, s.fields.ready, s.fields.readyAt + READY_LIFETIME)
      && (forall t | 0 <= t < |s.log| && TookProof(s.log[t].event) :: s.log[t].generation != s.fields.generation)
  }

  ghost predicate TookAt(log: seq<Entry>, before: nat, call: nat, attempt: nat, secret: Bytes) {
    exists t ::
        0 <= t < before && t < |log| && log[t].event == Taken(call, Some(secret)) && log[t].generation == attempt
  }

  /** Call numbers are used once, and a call in progress has released nothing. */
  ghost predicate CallsNumbered(s: System) {
    && (forall c | c in s.calls :: c < s.nextCall)
    && (forall i | 0 <= i < |s.log| && (s.log[i].event.Taken? || s.log[i].event.Released?) ::
          s.log[i].event.call < s.nextCall)
    && (forall c, k | c in s.calls && 0 <= k < |s.log| && s.log[k].event.Released? :: s.log[k].event.call != c)
    && (forall t, u | 0 <= t < u < |s.log| && s.log[t].event.Taken? && s.log[u].event.Taken? ::
          s.log[t].event.call != s.log[u].event.call)
  }

  ghost predicate CallsJustified(s: System) {
    forall c | c in s.calls :: TookAt(s.log, |s.log|, c, s.calls[c].attempt, s.calls[c].secret)
  }

  ghost predicate ReleasesJustified(log: seq<Entry>) {
    && (forall k | 0 <= k < |log| && log[k].event.Released? ::
          TookAt(log, k, log[k].event.call, log[k].generation, log[k].event.secret))
    && (forall j, k | 0 <= j < k < |log| && log[j].event.Released? && log[k].event.Released? ::
          log[j].event.call != log[k].event.call)
  }

  /** References outside the object plus one for every worker that has not released it. */
  ghost predicate Counted(s: System) {
    && s.fields.references == s.external + |s.running| + |s.leaving|
    && s.destroyed == (if s.fields.references == 0 then 1 else 0)
    && (s.starting > 0 || s.launching || s.calls != map[] ==> s.external > 0)
  }

  ghost predicate Inv(s: System) {
    && Ordered(s) && OneWorker(s) && DoneJustified(s.log) && TakesJustified(s.log)
    && ReadyJustified(s) && CallsNumbered(s) && CallsJustified(s) && ReleasesJustified(s.log) && Counted(s)
  }

  // Each clause is preserved on its own, from the clauses it depends on.

  lemma StepAppends(s: System, l: Label)
    requires Enabled(s, l)
    ensures var s' := Step(s, l);
            |s'.log| == |s.log| + 1 && s'.log[..|s.log|] == s.log &&
            s'.log[|s.log|].generation == s'.fields.generation && s'.log[|s.log|].at == s'.now
  {
  }

  lemma GenerationGrows(s: System, l: Label)
    requires Enabled(s, l)
    ensures var s' := Step(s, l);
            var e := s'.log[|s.log|].event;
            && s.fields.generation <= s'.fields.generation <= s.fields.generation + 1 && s.now <= s'.now
            && (Bump(e) <==> s.fields.generation < s'.fields.generation)
            && (e.Began? ==> e.attempt == s'.fields.generation)
  {
  }

  lemma OrderedExtends(s: System, s': System)
    requires Ordered(s) && |s'.log| == |s.log| + 1 && s'.log[..|s.log|] == s.log
    requires s'.log[|s.log|].generation == s'.fields.generation && s'.log[|s.log|].at == s'.now
    requires var e := s'.log[|s.log|].event;
             && s.fields.generation <= s'.fields.generation && s.now <= s'.now
             && (Bump(e) ==> s.fields.generation < s'.fields.generation)
             && (e.Began? ==> e.attempt == s'.fields.generation)
    ensures Ordered(s')
  {
    assert forall i | 0 <= i < |s.log| :: s'.log[i] == s'.log[..|s.log|][i] == s.log[i];
  }

  lemma OrderedKept(s: System, l: Label)
    requires Ordered(s) && Enabled(s, l)
    ensures Ordered(Step(s, l))
  {
    StepAppends(s, l);
    GenerationGrows(s, l);
    OrderedExtends(s, Step(s, l));
  }

  lemma BegunKept(log: seq<Entry>, log': seq<Entry>, before: nat, attempt: nat)
    requires log <= log' && before <= |log| && HasBegun(log, before, attempt)
    ensures HasBegun(log', before, attempt)
  {
    var b :| 0 <= b < before && b < |log| && log[b].event == Began(attempt);
    assert log'[b].event == Began(attempt);
  }

  lemma ProvedKept(log: seq<Entry>, log': seq<Entry>, before: nat, attempt: nat, proof: Option<Bytes>, deadline: nat)
    requires log <= log' && before <= |log| && Proved(log, before, attempt, proof, deadline)
    ensures Proved(log', before, attempt, proof, deadline)
  {
    var d :| 0 <= d < before && d < |log| && log[d].event == WorkerDone(attempt, proof) &&
      log[d].generation == attempt && deadline <= log[d].at + READY_LIFETIME;
    assert log'[d].event == WorkerDone(attempt, proof);
  }

  lemma TookKept(log: seq<Entry>, log': seq<Entry>, before: nat, call: nat, attempt: nat, secret: Bytes)
    requires log <= log' && before <= |log| && TookAt(log, before, call, attempt, secret)
    ensures TookAt(log', before, call, attempt, secret)
  {
    var t :| 0 <= t < before && t < |log| && log[t].event == Taken(call, Some(secret)) && log[t].generation == attempt;
    assert log'[t].event == Taken(call, Some(secret));
  }

  lemma WorkersTrackedKept(s: System, l: Label)
    requires WorkersTracked(s) && Enabled(s, l)
    ensures WorkersTracked(Step(s, l))
  {
  }

  /** What a step does to the workers: `Start` begins one, and only a running one reports, once. */
  lemma WorkersChange(s: System, l: Label)
    requires WorkersTracked(s) && Enabled(s, l)
    ensures var s' := Step(s, l);
            var e := s'.log[|s.log|].event;
            && (forall a | a in s'.running :: a in s.running || (e == Began(a) && a > s.fields.generation))
            && (e.WorkerDone? ==> e.worker in s.running && e.worker !in s'.running)
            && s.fields.generation <= s'.fields.generation
  {
  }

  lemma WorkersExtend(s: System, s': System, e: Event)
    requires WorkersTracked(s) && WorkersLogged(s) && s.fields.generation <= s'.fields.generation
    requires s.log <= s'.log && |s'.log| == |s.log| + 1 && s'.log[|s.log|].event == e
    requires forall a | a in s'.running :: a in s.running || (e == Began(a) && a > s.fields.generation)
    requires e.WorkerDone? ==> e.worker in s.running && e.worker !in s'.running
    ensures WorkersLogged(s')
  {
    forall a | a in s'.running ensures HasBegun(s'.log, |s'.log|, a) {
      if a in s.running { BegunKept(s.log, s'.log, |s.log|, a); }
      else { assert s'.log[|s.log|].event == Began(a); }
    }
  }

  lemma OneWorkerKept(s: System, l: Label)
    requires OneWorker(s) && Enabled(s, l)
    ensures OneWorker(Step(s, l))
  {
    WorkersTrackedKept(s, l);
    StepAppends(s, l);
    WorkersChange(s, l);
    WorkersExtend(s, Step(s, l), Step(s, l).log[|s.log|].event);
  }

  lemma DoneOnceKept(s: System, l: Label)
    requires OneWorker(s) && DoneOnce(s.log) && Enabled(s, l)
    ensures DoneOnce(Step(s, l).log)
  {
    StepAppends(s, l);
  }

  lemma DoneKept(s: System, l: Label)
    requires OneWorker(s) && DoneJustified(s.log) && Enabled(s, l)
    ensures DoneJustified(Step(s, l).log)
  {
    DoneOnceKept(s, l);
    StepAppends(s, l);
    var s' := Step(s, l);
    forall d | 0 <= d < |s'.log| && s'.log[d].event.WorkerDone? ensures HasBegun(s'.log, d, s'.log[d].event.worker) {
      BegunKept(s.log, s'.log, d, s'.log[d].event.worker);
    }
  }

  /** A proof is taken as it stood ready, while it is fresh. */
  lemma TakeChange(s: System, l: Label)
    requires Enabled(s, l) && (s.fields.ready.Some? ==> s.fields.readyAt <= s.now)
    ensures var e := Step(s, l).log[|s.log|];
            TookProof(e.event) ==>
              && e.event.proof == s.fields.ready && e.generation == s.fields.generation
              && e.at <= s.fields.readyAt + READY_LIFETIME
  {
  }

  lemma ProvedSooner(log: seq<Entry>, before: nat, attempt: nat, proof: Option<Bytes>, deadline: nat, sooner: nat)
    requires Proved(log, before, attempt, proof, deadline) && sooner <= deadline
    ensures Proved(log, before, attempt, proof, sooner)
  {
  }

  lemma TakesExtend(s: System, log': seq<Entry>, e: Entry)
    requires TakesJustified(s.log) && ReadyJustified(s) && log' == s.log + [e]
    requires TookProof(e.event) ==>
               && e.event.proof == s.fields.ready && e.generation == s.fields.generation
               && e.at <= s.fields.readyAt + READY_LIFETIME
    ensures TakesJustified(log')
  {
    forall t | 0 <= t < |log'| && TookProof(log'[t].event)
      ensures Proved(log', t, log'[t].generation, log'[t].event.proof, log'[t].at)
    {
      if t < |s.log| {
        ProvedKept(s.log, log', t, s.log[t].generation, s.log[t].event.proof, s.log[t].at);
      } else {
        var deadline := s.fields.readyAt + READY_LIFETIME;
        ProvedKept(s.log, log', t, e.generation, e.event.proof, deadline);
        ProvedSooner(log', t, e.generation, e.event.proof, deadline, e.at);
      }
    }
  }

  lemma TakesKept(s: System, l: Label)
    requires TakesJustified(s.log) && ReadyJustified(s) && Enabled(s, l)
    ensures TakesJustified(Step(s, l).log)
  {
    StepAppends(s, l);
    TakeChange(s, l);
    var log' := Step(s, l).log;
    assert log' == s.log + [log'[|s.log|]];
    TakesExtend(s, log', log'[|s.log|]);
  }

  /** The worker of the current generation reports; no one can have taken its proof before. */
  lemma ReadySet(s: System, l: Label)
    requires Ordered(s) && OneWorker(s) && TakesJustified(s.log) && Enabled(s, l)
    requires l.WorkerFinish? && l.worker == s.fields.generation && Checked(l.unlocked).Some?
    ensures ReadyJustified(Step(s, l))
  {
    var s' := Step(s, l);
    assert s'.log[|s.log|].event == WorkerDone(s.fields.generation, s'.fields.ready);
    forall t | 0 <= t < |s.log| && TookProof(s.log[t].event) ensures s.log[t].generation != s.fields.generation {
      assert Proved(s.log, t, s.log[t].generation, s.log[t].event.proof, s.log[t].at);
    }
  }

  /** Any other step keeps the ready proof as it is, with `generation_`, or drops it. */
  lemma ReadyChange(s: System, l: Label)
    requires OneWorker(s) && Enabled(s, l) && (s.fields.ready.Some? ==> !s.fields.working)
    requires !(l.WorkerFinish? && l.worker == s.fields.generation && Checked(l.unlocked).Some?)
    ensures var s' := Step(s, l);
            s'.fields.ready.Some? ==>
              && s'.fields == s.fields.(references := s'.fields.references, events := s'.fields.events)
              && s.now <= s'.now && !TookProof(s'.log[|s.log|].event)
  {
  }

  lemma ReadyExtends(s: System, s': System)
    requires ReadyJustified(s) && s.log <= s'.log && |s'.log| == |s.log| + 1 && s.now <= s'.now
    requires s'.fields == s.fields.(references := s'.fields.references, events := s'.fields.events)
    requires !TookProof(s'.log[|s.log|].event)
    ensures ReadyJustified(s')
  {
    if s.fields.ready.Some? {
      ProvedKept(s.log, s'.log, |s.log|, s.fields.generation, s.fields.ready, s.fields.readyAt + READY_LIFETIME);
    }
  }

  lemma ReadyKept(s: System, l: Label)
    requires Ordered(s) && OneWorker(s) && TakesJustified(s.log) && ReadyJustified(s) && Enabled(s, l)
    ensures ReadyJustified(Step(s, l))
  {
    if l.WorkerFinish? && l.worker == s.fields.generation && Checked(l.unlocked).Some? {
      ReadySet(s, l);
    } else {
      StepAppends(s, l);
      ReadyChange(s, l);
      if Step(s, l).fields.ready.Some? { ReadyExtends(s, Step(s, l)); }
    }
  }

  /** What a step does to the calls in progress: `Take` opens one, only its own call is ever released. */
  lemma CallsChange(s: System, l: Label)
    requires Enabled(s, l)
    ensures var s' := Step(s, l);
            var e := s'.log[|s.log|].event;
            && (forall c | c in s'.calls :: (c in s.calls && s'.calls[c] == s.calls[c]) ||
                                            (c == s.nextCall && e == Taken(c, Some(s'.calls[c].secret)) &&
                                             s'.calls[c].attempt == s'.fields.generation))
            && s'.nextCall == (if e.Taken? then s.nextCall + 1 else s.nextCall)
            && (e.Taken? ==> e.call == s.nextCall)
            && (e.Released? ==> e.call in s.calls && e.call !in s'.calls &&
                                s.calls[e.call] == Pending(s'.fields.generation, e.secret))
  {
  }

  lemma NumbersExtend(s: System, s': System, e: Event)
    requires CallsNumbered(s) && s.log <= s'.log && |s'.log| == |s.log| + 1 && s'.log[|s.log|].event == e
    requires forall c | c in s'.calls :: c in s.calls || (c == s.nextCall && e.Taken?)
    requires s'.nextCall == if e.Taken? then s.nextCall + 1 else s.nextCall
    requires e.Taken? ==> e.call == s.nextCall
    requires e.Released? ==> e.call in s.calls && e.call !in s'.calls
    ensures CallsNumbered(s')
  {
    assert forall i | 0 <= i < |s.log| :: s'.log[i] == s.log[i];
  }

  lemma CallsKept(s: System, l: Label)
    requires CallsNumbered(s) && CallsJustified(s) && Enabled(s, l)
    ensures CallsNumbered(Step(s, l)) && CallsJustified(Step(s, l))
  {
    StepAppends(s, l);
    CallsChange(s, l);
    var s' := Step(s, l);
    NumbersExtend(s, s', s'.log[|s.log|].event);
    forall c | c in s'.calls ensures TookAt(s'.log, |s'.log|, c, s'.calls[c].attempt, s'.calls[c].secret) {
      if c in s.calls && s'.calls[c] == s.calls[c] {
        TookKept(s.log, s'.log, |s.log|, c, s.calls[c].attempt, s.calls[c].secret);
      } else {
        assert s'.log[|s.log|].event == Taken(c, Some(s'.calls[c].secret));
      }
    }
  }

  lemma ReleasesExtend(s: System, log': seq<Entry>, e: Entry)
    requires CallsNumbered(s) && CallsJustified(s) && ReleasesJustified(s.log) && log' == s.log + [e]
    requires e.event.Released? ==>
               e.event.call in s.calls && s.calls[e.event.call] == Pending(e.generation, e.event.secret)
    ensures ReleasesJustified(log')
  {
    forall k | 0 <= k < |log'| && log'[k].event.Released?
      ensures TookAt(log', k, log'[k].event.call, log'[k].generation, log'[k].event.secret)
    {
      TookKept(s.log, log', k, log'[k].event.call, log'[k].generation, log'[k].event.secret);
    }
  }

  lemma ReleasesKept(s: System, l: Label)
    requires CallsNumbered(s) && CallsJustified(s) && ReleasesJustified(s.log) && Enabled(s, l)
    ensures ReleasesJustified(Step(s, l).log)
  {
    StepAppends(s, l);
    CallsChange(s, l);
    var log' := Step(s, l).log;
    assert log' == s.log + [log'[|s.log|]];
    ReleasesExtend(s, log', log'[|s.log|]);
  }

  lemma CountedStart(s: System, preparation: Preparation)
    requires OneWorker(s) && Counted(s) && s.starting > 0
    ensures Counted(StepStart(s, preparation))
  {
  }

  lemma CountedLaunch(s: System, threadRuns: bool)
    requires OneWorker(s) && Counted(s) && s.launching
    ensures Counted(StepLaunch(s, threadRuns))
  {
    assert |s.running - {s.fields.generation}| == |s.running| - 1;
  }

  lemma CountedWorker(s: System, l: Label)
    requires OneWorker(s) && Counted(s) && (l.WorkerFinish? || l.WorkerRelease?) && Enabled(s, l)
    ensures Counted(Step(s, l))
  {
    if l.WorkerFinish? {
      assert |s.running - {l.worker}| == |s.running| - 1 && |s.leaving + {l.worker}| == |s.leaving| + 1;
    } else {
      assert |s.leaving - {l.worker}| == |s.leaving| - 1;
    }
  }

  lemma CountedOther(s: System, l: Label)
    requires Counted(s) && Enabled(s, l) && !l.Start? && !l.Launch? && !l.WorkerFinish? && !l.WorkerRelease?
    ensures Counted(Step(s, l))
  {
  }

  lemma CountedKept(s: System, l: Label)
    requires OneWorker(s) && Counted(s) && Enabled(s, l)
    ensures Counted(Step(s, l))
  {
    if l.Start? { CountedStart(s, l.preparation); }
    else if l.Launch? { CountedLaunch(s, l.threadRuns); }
    else if l.WorkerFinish? || l.WorkerRelease? { CountedWorker(s, l); }
    else { CountedOther(s, l); }
  }

  lemma StepKeepsInv(s: System, l: Label)
    requires Inv(s) && Enabled(s, l)
    ensures Inv(Step(s, l))
  {
    OrderedKept(s, l);
    OneWorkerKept(s, l);
    DoneKept(s, l);
    TakesKept(s, l);
    ReadyKept(s, l);
    CallsKept(s, l);
    ReleasesKept(s, l);
    CountedKept(s, l);
  }

  lemma {:induction false} RunKeepsInv(start: System, labels: seq<Label>, s: System)
    requires Inv(start) && Execute(start, labels) == Some(s)
    ensures Inv(s) && start.log <= s.log
    ensures s.fields.generation <= start.fields.generation + |labels|
  {
    if labels == [] {
    } else {
      var before := Execute(start, labels[..|labels| - 1]).value;
      var l := labels[|labels| - 1];
      RunKeepsInv(start, labels[..|labels| - 1], before);
      StepKeepsInv(before, l);
      StepAppends(before, l);
      GenerationGrows(before, l);
    }
  }

  lemma ReachableInv(s: System)
    requires Reachable(s)
    ensures Inv(s)
  {
    var events, now, labels :| Execute(InitialSystem(events, now), labels) == Some(s);
    RunKeepsInv(InitialSystem(events, now), labels, s);
  }

  lemma ReachableStep(s: System, l: Label)
    requires Reachable(s) && Enabled(s, l)
    ensures Reachable(Step(s, l))
  {
    var events, now, labels :| Execute(InitialSystem(events, now), labels) == Some(s);
    ExecuteAppend(InitialSystem(events, now), labels, l);
    assert Execute(InitialSystem(events, now), labels + [l]) == Some(Step(s, l));
  }

  /**
   * `generation_` never exceeds the number of steps taken, so the 64-bit counter of the
   * source does not wrap in any run shorter than 2^64 steps.
   */
  lemma GenerationBounded(events: bool, now: nat, labels: seq<Label>, s: System)
    requires Execute(InitialSystem(events, now), labels) == Some(s)
    ensures s.fields.generation <= |labels|
  {
    RunKeepsInv(InitialSystem(events, now), labels, s);
  }

  // ----- What every run guarantees

  /**
   * The release at `k` goes back to one attempt: begun at `b`, reported by its own worker
   * at `d`, taken at `t`, with `generation_` untouched from `b` to `k`.
   */
  ghost predicate Provenance(log: seq<Entry>, b: int, d: int, t: int, k: int) {
    0 <= b < d < t < k < |log| && log[k].event.Released? &&
    var attempt := log[k].generation;
    var secret := log[k].event.secret;
    && log[b].event == Began(attempt)
    && log[d].event == WorkerDone(attempt, Some(secret)) && WellFormedPassword(secret)
    && log[t].event == Taken(log[k].event.call, Some(secret))
    && log[d].at <= log[t].at <= log[d].at + READY_LIFETIME
    && (forall j | b < j <= k :: !Bump(log[j].event) && log[j].generation == attempt)
  }

  lemma TakeOf(log: seq<Entry>, k: nat) returns (t: int)
    requires ReleasesJustified(log) && k < |log| && log[k].event.Released?
    ensures 0 <= t < k && log[t].event == Taken(log[k].event.call, Some(log[k].event.secret))
    ensures log[t].generation == log[k].generation
  {
    var attempt, secret, call := log[k].generation, log[k].event.secret, log[k].event.call;
    assert TookAt(log, k, call, attempt, secret);
    t :| 0 <= t < k && log[t].event == Taken(call, Some(secret)) && log[t].generation == attempt;
  }

  lemma ReportOf(log: seq<Entry>, t: nat) returns (d: int)
    requires TakesJustified(log) && t < |log| && TookProof(log[t].event)
    ensures 0 <= d < t && log[d].event == WorkerDone(log[t].generation, log[t].event.proof)
    ensures log[t].at <= log[d].at + READY_LIFETIME
  {
    var attempt, proof := log[t].generation, log[t].event.proof;
    assert Proved(log, t, attempt, proof, log[t].at);
    d :| 0 <= d < t && log[d].event == WorkerDone(attempt, proof) && log[d].generation == attempt &&
      log[t].at <= log[d].at + READY_LIFETIME;
  }

  lemma StartOf(log: seq<Entry>, d: nat) returns (b: int)
    requires DoneJustified(log) && d < |log| && log[d].event.WorkerDone?
    ensures 0 <= b < d && log[b].event == Began(log[d].event.worker)
    ensures log[d].event.proof.Some? ==> WellFormedPassword(log[d].event.proof.value)
  {
    var worker := log[d].event.worker;
    assert HasBegun(log, d, worker);
    b :| 0 <= b < d && log[b].event == Began(worker);
  }

  lemma NothingBetween(s: System, b: int, k: int)
    requires Ordered(s) && 0 <= b < k < |s.log| && s.log[b].event == Began(s.log[k].generation)
    ensures forall j | b < j <= k :: !Bump(s.log[j].event) && s.log[j].generation == s.log[k].generation
    ensures forall j | b <= j <= k :: s.log[b].at <= s.log[j].at
  {
    forall j | b < j <= k ensures !Bump(s.log[j].event) && s.log[j].generation == s.log[k].generation {
      if j < k { assert s.log[j].generation <= s.log[k].generation; }
    }
  }

  lemma ReleaseProvenance(s: System, k: nat) returns (b: int, d: int, t: int)
    requires Reachable(s) && k < |s.log| && s.log[k].event.Released?
    ensures Provenance(s.log, b, d, t, k)
  {
    ReachableInv(s);
    t := TakeOf(s.log, k);
    d := ReportOf(s.log, t);
    b := StartOf(s.log, d);
    NothingBetween(s, b, k);
    assert s.log[d].at <= s.log[t].at;
  }

  /** Every report in the history is the checked outcome of a worker step of the run. */
  lemma {:induction false} ReportOfLabel(start: System, labels: seq<Label>, s: System, d: nat) returns (l: Label)
    requires start.log == [] && Execute(start, labels) == Some(s) && d < |s.log| && s.log[d].event.WorkerDone?
    ensures l in labels && l.WorkerFinish? && Checked(l.unlocked) == s.log[d].event.proof
  {
    if labels == [] {
      assert false;
    } else {
      var shorter := labels[..|labels| - 1];
      var before := Execute(start, shorter).value;
      l := labels[|labels| - 1];
      StepAppends(before, l);
      if d < |before.log| {
        assert s.log[d] == s.log[..|before.log|][d];
        l := ReportOfLabel(start, shorter, before, d);
      }
    }
  }

  /** Every released secret was reported by a worker step of the run. */
  lemma ReleaseWasReported(events: bool, now: nat, labels: seq<Label>, s: System, k: nat) returns (l: Label)
    requires Execute(InitialSystem(events, now), labels) == Some(s) && k < |s.log| && s.log[k].event.Released?
    ensures l in labels && l.WorkerFinish? && l.unlocked == Some(s.log[k].event.secret)
  {
    var b, d, t := ReleaseProvenance(s, k);
    l := ReportOfLabel(InitialSystem(events, now), labels, s, d);
  }

  lemma OneTakePerAttempt(log: seq<Entry>, t: nat, u: nat)
    requires TakesJustified(log) && t < |log| && u < |log| && TookProof(log[t].event) && TookProof(log[u].event)
    requires log[t].generation == log[u].generation
    ensures t == u
  {
  }

  /** Each attempt yields at most one released credential, and so does each serialization call. */
  lemma ReleasedAtMostOnce(s: System, j: nat, k: nat)
    requires Reachable(s) && j < k < |s.log| && s.log[j].event.Released? && s.log[k].event.Released?
    ensures s.log[j].generation != s.log[k].generation && s.log[j].event.call != s.log[k].event.call
  {
    assert TakesJustified(s.log) && ReleasesJustified(s.log) by { ReachableInv(s); }
    if s.log[j].generation == s.log[k].generation {
      var t := TakeOf(s.log, j);
      var u := TakeOf(s.log, k);
      OneTakePerAttempt(s.log, t, u);
      assert false;
    }
  }

  /**
   * A deselection at `i` is final for everything begun before it: whatever is released
   * later, through any worker or call still in flight, belongs to an attempt begun later.
   */
  lemma DeselectionIsFinal(s: System, i: nat, k: nat) returns (b: int)
    requires Reachable(s) && i < k < |s.log| && s.log[i].event.Deselected? && s.log[k].event.Released?
    ensures i < b < k && s.log[b].event == Began(s.log[k].generation)
    ensures forall a | 0 <= a <= i :: s.log[a].event != Began(s.log[k].generation)
  {
    b := StartOfRelease(s, k);
    assert Ordered(s) by { ReachableInv(s); }
    NotBegunBefore(s, i, k);
  }

  lemma StartOfRelease(s: System, k: nat) returns (b: int)
    requires Reachable(s) && k < |s.log| && s.log[k].event.Released?
    ensures 0 <= b < k && s.log[b].event == Began(s.log[k].generation)
  {
    var d, t;
    b, d, t := ReleaseProvenance(s, k);
  }

  lemma NotBegunBefore(s: System, i: nat, k: nat)
    requires Ordered(s) && i < k < |s.log| && s.log[i].event.Deselected?
    ensures forall a | 0 <= a <= i :: s.log[a].event != Began(s.log[k].generation)
  {
    assert s.log[i].generation <= s.log[k].generation;
    forall a | 0 <= a <= i ensures s.log[a].event != Began(s.log[k].generation) {
      if a < i { assert s.log[a].generation < s.log[i].generation; }
    }
  }

  /** `working_` says that exactly one worker has not run its finish section; a ready proof excludes it. */
  lemma WorkersNeverOverlap(s: System)
    requires Reachable(s)
    ensures |s.running| == if s.fields.working then 1 else 0
    ensures s.fields.ready.Some? ==> s.running == {} && WellFormedPassword(s.fields.ready.value)
  {
    ReachableInv(s);
    if s.fields.working {
      var a :| a in s.running;
      assert s.running == {a};
    }
    if s.fields.ready.Some? {
      assert Proved(s.log, |s.log|, s.fields.generation, s.fields.ready, s.fields.readyAt + READY_LIFETIME);
    }
  }

  /**
   * The count is the outside references plus the workers that have not released theirs:
   * the destructor runs at most once, never under a worker, and nothing but the clock
   * moves afterwards.
   */
  lemma ReferencesConserved(s: System)
    requires Reachable(s)
    ensures s.fields.references == s.external + |s.running + s.leaving|
    ensures s.destroyed == if s.external == 0 && s.running + s.leaving == {} then 1 else 0
    ensures s.destroyed > 0 ==> forall l | Enabled(s, l) :: l.Tick?
  {
    ReachableInv(s);
    assert |s.running + s.leaving| == |s.running| + |s.leaving|;
    if s.fields.references == 0 {
      assert s.running == {} && s.leaving == {};
    }
  }

  // ----- Display refreshes change nothing anyone can see

  /** `Advise` and `UnAdvise` of the credential, `SetSelected` and the `ready` query. */
  predicate DisplayOnly(l: Label) {
    l.DisplayChange? || l.Refresh?
  }

  predicate Visible(e: Entry) {
    !e.event.DisplayChanged? && !e.event.Refreshed?
  }

  function Erase(labels: seq<Label>): seq<Label> {
    if labels == [] then [] else
    var l := labels[|labels| - 1];
    Erase(labels[..|labels| - 1]) + if DisplayOnly(l) then [] else [l]
  }

  function Observed(log: seq<Entry>): seq<Entry> {
    if log == [] then [] else
    var e := log[|log| - 1];
    Observed(log[..|log| - 1]) + if Visible(e) then [e] else []
  }

  /** Equal up to the log and to an expired secret that a refresh in the first run has dropped. */
  ghost predicate Similar(s: System, t: System) {
    && s == t.(log := s.log, fields := t.fields.(ready := s.fields.ready))
    && (s.fields.ready == t.fields.ready || (s.fields.ready.None? && Expired(t.fields, t.now)))
  }

  lemma SimilarTake(s: System, t: System)
    requires Similar(s, t) && s.external > 0
    ensures Similar(StepTake(s), StepTake(t)) && StepTake(s).log[|s.log|] == StepTake(t).log[|t.log|]
  {
  }

  lemma SimilarStart(s: System, t: System, preparation: Preparation)
    requires Similar(s, t) && s.starting > 0
    ensures Similar(StepStart(s, preparation), StepStart(t, preparation))
    ensures StepStart(s, preparation).log[|s.log|] == StepStart(t, preparation).log[|t.log|]
  {
  }

  /** What two similar states must agree on for one step. */
  ghost predicate Alike(s: System, t: System, l: Label)
    requires Enabled(s, l)
  {
    && Enabled(t, l) && Similar(Step(s, l), Step(t, l))
    && Step(s, l).log[|s.log|] == Step(t, l).log[|t.log|] && Visible(Step(s, l).log[|s.log|])
  }

  lemma SimilarLaunch(s: System, t: System, threadRuns: bool)
    requires Similar(s, t)
    ensures Similar(StepLaunch(s, threadRuns), StepLaunch(t, threadRuns))
    ensures StepLaunch(s, threadRuns).log[|s.log|] == StepLaunch(t, threadRuns).log[|t.log|]
  {
  }

  lemma SimilarWorker(s: System, t: System, l: Label)
    requires Similar(s, t) && Enabled(s, l) && (l.WorkerFinish? || l.WorkerRelease?)
    ensures Alike(s, t, l)
  {
  }

  lemma SimilarCall(s: System, t: System, l: Label)
    requires Similar(s, t) && Enabled(s, l) && (l.PackFails? || l.Complete? || l.Deselect?)
    ensures Alike(s, t, l)
  {
  }

  lemma SimilarCount(s: System, t: System, l: Label)
    requires Similar(s, t) && Enabled(s, l) && (l.Tick? || l.SetEvents? || l.AddReference? || l.DropReference?)
    requires t.fields.ready.Some? ==> t.fields.readyAt <= t.now
    ensures Alike(s, t, l)
  {
  }

  lemma SimilarStep(s: System, t: System, l: Label)
    requires Similar(s, t) && Enabled(s, l) && !DisplayOnly(l)
    requires t.fields.ready.Some? ==> t.fields.readyAt <= t.now
    ensures Alike(s, t, l)
  {
    match l
    case Take => SimilarTake(s, t);
    case Start(preparation) => SimilarStart(s, t, preparation);
    case Launch(threadRuns) => SimilarLaunch(s, t, threadRuns);
    case WorkerFinish(_, _) => SimilarWorker(s, t, l);
    case WorkerRelease(_) => SimilarWorker(s, t, l);
    case PackFails(_) => SimilarCall(s, t, l);
    case Complete(_, _) => SimilarCall(s, t, l);
    case Deselect => SimilarCall(s, t, l);
    case _ => SimilarCount(s, t, l);
  }

  lemma SimilarDisplay(s: System, t: System, l: Label)
    requires Similar(s, t) && Enabled(s, l) && DisplayOnly(l)
    ensures Similar(Step(s, l), t) && !Visible(Step(s, l).log[|s.log|])
  {
  }

  lemma HiddenStep(s: System, t: System, l: Label)
    requires Similar(s, t) && Observed(s.log) == t.log && Enabled(s, l) && DisplayOnly(l)
    ensures Similar(Step(s, l), t) && Observed(Step(s, l).log) == t.log
  {
    StepAppends(s, l);
    ObservedStep(s.log, Step(s, l).log);
    SimilarDisplay(s, t, l);
  }

  lemma VisibleStep(s: System, t: System, l: Label)
    requires Similar(s, t) && Observed(s.log) == t.log && ReadyJustified(t) && Enabled(s, l) && !DisplayOnly(l)
    ensures Enabled(t, l) && Similar(Step(s, l), Step(t, l)) && Observed(Step(s, l).log) == Step(t, l).log
  {
    SimilarStep(s, t, l);
    StepAppends(s, l);
    StepAppends(t, l);
    ObservedStep(s.log, Step(s, l).log);
  }

  /**
   * Erasing every display refresh from a run leaves a run with the same history: the same
   * starts, the same worker reports, the same releases, at the same times.
   */
  lemma {:induction false} RefreshIsUnobservable(events: bool, now: nat, labels: seq<Label>, s: System)
    returns (t: System)
    requires Execute(InitialSystem(events, now), labels) == Some(s)
    ensures Execute(InitialSystem(events, now), Erase(labels)) == Some(t)
    ensures Similar(s, t) && Observed(s.log) == t.log
  {
    var start := InitialSystem(events, now);
    if labels == [] {
      t := start;
    } else {
      var shorter, l := labels[..|labels| - 1], labels[|labels| - 1];
      var before := Execute(start, shorter).value;
      var t0 := RefreshIsUnobservable(events, now, shorter, before);
      if DisplayOnly(l) {
        HiddenStep(before, t0, l);
        t := t0;
        assert Erase(labels) == Erase(shorter);
      } else {
        assert ReadyJustified(t0) by { RunKeepsInv(start, Erase(shorter), t0); }
        VisibleStep(before, t0, l);
        t := Step(t0, l);
        ExecuteAppend(start, Erase(shorter), l);
      }
    }
  }

  lemma ExecuteAppend(start: System, labels: seq<Label>, l: Label)
    ensures var before := Execute(start, labels);
            Execute(start, labels + [l]) ==
            if before.Some? && Enabled(before.value, l) then Some(Step(before.value, l)) else None
  {
    assert (labels + [l])[..|labels|] == labels;
  }

  lemma ObservedStep(log: seq<Entry>, log': seq<Entry>)
    requires |log'| == |log| + 1 && log'[..|log|] == log
    ensures Observed(log') == Observed(log) + if Visible(log'[|log|]) then [log'[|log|]] else []
  {
  }

  // ----- The completion section decides by cancellation alone

  /** While a call is packing, `generation_` is unchanged exactly if nothing began and nothing was deselected. */
  lemma {:induction false} GenerationTellsBumps(s: System, labels: seq<Label>, s': System)
    requires Execute(s, labels) == Some(s')
    ensures s.log <= s'.log && s.fields.generation <= s'.fields.generation
    ensures s'.fields.generation == s.fields.generation <==>
              forall j | |s.log| <= j < |s'.log| :: !Bump(s'.log[j].event)
  {
    if labels == [] {
    } else {
      var before := Execute(s, labels[..|labels| - 1]).value;
      var l := labels[|labels| - 1];
      GenerationTellsBumps(s, labels[..|labels| - 1], before);
      StepAppends(before, l);
      GenerationGrows(before, l);
      assert Bump(s'.log[|before.log|].event) <==> before.fields.generation < s'.fields.generation;
      assert forall j | 0 <= j < |before.log| :: s'.log[j] == s'.log[..|before.log|][j] == before.log[j];
    }
  }

  lemma {:induction false} PendingStays(s: System, labels: seq<Label>, s': System, call: nat)
    requires Execute(s, labels) == Some(s') && call < s.nextCall && call in s'.calls
    ensures call in s.calls && s'.calls[call] == s.calls[call] && s.nextCall <= s'.nextCall
  {
    if labels == [] {
    } else {
      var before := Execute(s, labels[..|labels| - 1]).value;
      NextCallGrows(s, labels[..|labels| - 1], before);
      CallsChange(before, labels[|labels| - 1]);
      PendingStays(s, labels[..|labels| - 1], before, call);
    }
  }

  lemma {:induction false} NextCallGrows(s: System, labels: seq<Label>, s': System)
    requires Execute(s, labels) == Some(s')
    ensures s.nextCall <= s'.nextCall
  {
    if labels == [] {
    } else {
      var before := Execute(s, labels[..|labels| - 1]).value;
      NextCallGrows(s, labels[..|labels| - 1], before);
      CallsChange(before, labels[|labels| - 1]);
    }
  }

  /**
   * A call that takes a fresh proof in `s` and completes after any interleaving `labels`
   * releases exactly that proof if and only if no cancellation and no newer start came in
   * between; otherwise it is superseded and releases nothing.
   */
  lemma CompletionDecides(s: System, labels: seq<Label>, s': System)
    requires s.external > 0 && s.fields.ready.Some? && !Expired(s.fields, s.now)
    requires Execute(StepTake(s), labels) == Some(s') && s.nextCall in s'.calls
    ensures var last := StepComplete(s', s.nextCall, true).log[|s'.log|].event;
            var undisturbed := forall j | |s.log| < j < |s'.log| :: !Bump(s'.log[j].event);
            && (last == Released(s.nextCall, s.fields.ready.value) <==> undisturbed)
            && (last == Withheld(s.nextCall, Superseded) <==> !undisturbed)
  {
    var taken := StepTake(s);
    TakeOpensCall(s);
    GenerationTellsBumps(taken, labels, s');
    PendingStays(taken, labels, s', s.nextCall);
    CompletionOutcome(s', s.nextCall);
  }

  lemma TakeOpensCall(s: System)
    requires s.external > 0 && s.fields.ready.Some? && !Expired(s.fields, s.now)
    ensures var taken := StepTake(s);
            && s.nextCall in taken.calls && taken.nextCall == s.nextCall + 1
            && taken.calls[s.nextCall] == Pending(s.fields.generation, s.fields.ready.value)
            && taken.fields.generation == s.fields.generation && |taken.log| == |s.log| + 1
  {
  }

  lemma CompletionOutcome(s: System, call: nat)
    requires call in s.calls
    ensures StepComplete(s, call, true).log[|s.log|].event ==
            if s.fields.generation == s.calls[call].attempt then Released(call, s.calls[call].secret)
            else Withheld(call, Superseded)
  {
  }

  // ----- A reported proof is there to be taken

  /** A step that neither takes, starts nor cancels. */
  predicate Quiet(l: Label) {
    !l.Take? && !l.Start? && !l.Deselect?
  }

  /** The outcome of the worker that reported at `since`, or nothing once that has expired. */
  ghost predicate Holding(s: System, proof: Option<Bytes>, since: nat) {
    && s.running == {} && !s.launching && since <= s.now
    && (s.fields.ready.Some? ==> s.fields.ready == proof && s.fields.readyAt == since)
    && (s.fields.ready.None? ==> proof.None? || s.now - since > READY_LIFETIME)
  }

  lemma QuietStepHolds(s: System, l: Label, proof: Option<Bytes>, since: nat)
    requires Holding(s, proof, since) && Enabled(s, l) && Quiet(l)
    ensures Holding(Step(s, l), proof, since)
  {
  }

  lemma {:induction false} QuietRunHolds(s: System, labels: seq<Label>, s': System, proof: Option<Bytes>, since: nat)
    requires Holding(s, proof, since) && Execute(s, labels) == Some(s') && forall l | l in labels :: Quiet(l)
    ensures Holding(s', proof, since)
  {
    if labels == [] {
    } else {
      var before := Execute(s, labels[..|labels| - 1]).value;
      QuietRunHolds(s, labels[..|labels| - 1], before, proof, since);
      QuietStepHolds(before, labels[|labels| - 1], proof, since);
    }
  }

  /**
   * What the next serialization call takes after a worker has reported: its checked outcome,
   * if its attempt was still current then and no more than 30000 ms have passed; else nothing.
   */
  lemma ReportIsTaken(s: System, worker: nat, unlocked: Option<Bytes>, labels: seq<Label>, s': System)
    requires Reachable(s) && Enabled(s, WorkerFinish(worker, unlocked))
    requires Execute(Step(s, WorkerFinish(worker, unlocked)), labels) == Some(s') && forall l | l in labels :: Quiet(l)
    ensures TakeSection(s'.fields, s'.now).1 ==
            if worker == s.fields.generation && s'.now - s.now <= READY_LIFETIME then Checked(unlocked) else None
  {
    var proof := if worker == s.fields.generation then Checked(unlocked) else None;
    var reported := Step(s, WorkerFinish(worker, unlocked));
    assert Holding(reported, proof, s.now) by { ReachableInv(s); }
    QuietRunHolds(reported, labels, s', proof, s.now);
  }

  /** A call finds no proof and starts a worker, which reports after the touch. */
  function Attempt(touch: nat, unlocked: Bytes): seq<Label> {
    [Take, Start(Prepared), Launch(true), Tick(touch), WorkerFinish(1, Some(unlocked))]
  }

  /**
   * A whole sign-in: a call finds no proof and starts a worker, the worker reports, the next call
   * takes and completes.
   */
  function SignIn(touch: nat, wait: nat, pack: nat, unlocked: Bytes): seq<Label> {
    Attempt(touch, unlocked) + [Refresh, Tick(wait), Take, Tick(pack), Complete(1, true)]
  }

  lemma {:induction false} ExecuteTwice(start: System, first: seq<Label>, second: seq<Label>)
    requires Execute(start, first).Some?
    ensures Execute(start, first + second) == Execute(Execute(start, first).value, second)
  {
    if second == [] {
      assert first + second == first;
    } else {
      var shorter, l := second[..|second| - 1], second[|second| - 1];
      ExecuteTwice(start, first, shorter);
      assert first + second == (first + shorter) + [l] && second == shorter + [l];
      ExecuteAppend(start, first + shorter, l);
      ExecuteAppend(Execute(start, first).value, shorter, l);
    }
  }

  lemma ExecuteFirst(start: System, l: Label, rest: seq<Label>)
    requires Enabled(start, l)
    ensures Execute(start, [l] + rest) == Execute(Step(start, l), rest)
  {
    ExecuteAppend(start, [], l);
    assert [] + [l] == [l];
    ExecuteTwice(start, [l], rest);
  }

  /** The first half of a sign-in always goes through, up to the worker's report. */
  lemma AttemptRuns(now: nat, touch: nat, unlocked: Bytes, rest: seq<Label>) returns (s: System)
    ensures Execute(InitialSystem(true, now), Attempt(touch, unlocked) + rest) == Execute(s, rest)
    ensures var proof := Checked(Some(unlocked));
            s.fields == Fields(1, false, proof, if proof.Some? then now + touch else 0, true, 2)
    ensures s.now == now + touch && s.external == 1 && !s.launching && s.calls == map[] && s.nextCall == 1
  {
    var start := InitialSystem(true, now);
    var finish := WorkerFinish(1, Some(unlocked));
    var launch := [Launch(true)] + ([Tick(touch)] + ([finish] + rest));
    assert Attempt(touch, unlocked) + rest == [Take] + ([Start(Prepared)] + launch);
    ExecuteFirst(start, Take, [Start(Prepared)] + launch);
    var asked := Step(start, Take);
    ExecuteFirst(asked, Start(Prepared), launch);
    var begun := Step(asked, Start(Prepared));
    ExecuteFirst(begun, Launch(true), [Tick(touch)] + ([finish] + rest));
    var launched := Step(begun, Launch(true));
    ExecuteFirst(launched, Tick(touch), [finish] + rest);
    var touched := Step(launched, Tick(touch));
    ExecuteFirst(touched, finish, rest);
    s := Step(touched, finish);
  }

  predicate EndsWith(end: Option<System>, e: Event) {
    end.Some? && end.value.log != [] && end.value.log[|end.value.log| - 1].event == e
  }

  /** Packing and completing goes through exactly if the call took a proof. */
  lemma PackCompletes(s: System, pack: nat)
    requires !s.launching && (1 in s.calls ==> s.calls[1].attempt == s.fields.generation)
    ensures var end := Execute(s, [Tick(pack), Complete(1, true)]);
            if 1 in s.calls then EndsWith(end, Released(1, s.calls[1].secret)) else end.None?
  {
    var last := [Complete(1, true)];
    assert [Tick(pack), Complete(1, true)] == [Tick(pack)] + last;
    ExecuteFirst(s, Tick(pack), last);
    ExecuteAppend(Step(s, Tick(pack)), [], Complete(1, true));
    assert [] + last == last;
  }

  /** Taking, packing and completing goes through exactly if there is a proof and it is fresh. */
  lemma TakeCompletes(s: System, pack: nat)
    requires s.external > 0 && !s.launching && s.calls == map[] && s.nextCall == 1
    ensures var end := Execute(s, [Take, Tick(pack), Complete(1, true)]);
            if s.fields.ready.Some? && !Expired(s.fields, s.now)
            then EndsWith(end, Released(1, s.fields.ready.value)) else end.None?
  {
    var rest := [Tick(pack), Complete(1, true)];
    assert [Take, Tick(pack), Complete(1, true)] == [Take] + rest;
    ExecuteFirst(s, Take, rest);
    PackCompletes(StepTake(s), pack);
    if s.fields.ready.Some? && !Expired(s.fields, s.now) { TakeOpensCall(s); }
  }

  /** The second half, with a display refresh and a wait before it. */
  lemma ProofCompletes(s: System, wait: nat, pack: nat)
    requires s.external > 0 && !s.launching && s.calls == map[] && s.nextCall == 1 && s.fields.readyAt <= s.now
    ensures var end := Execute(s, [Refresh, Tick(wait), Take, Tick(pack), Complete(1, true)]);
            if s.fields.ready.Some? && s.now + wait - s.fields.readyAt <= READY_LIFETIME
            then EndsWith(end, Released(1, s.fields.ready.value)) else end.None?
  {
    var last := [Take, Tick(pack), Complete(1, true)];
    assert [Refresh, Tick(wait), Take, Tick(pack), Complete(1, true)] == [Refresh] + ([Tick(wait)] + last);
    ExecuteFirst(s, Refresh, [Tick(wait)] + last);
    var refreshed := Step(s, Refresh);
    ExecuteFirst(refreshed, Tick(wait), last);
    TakeCompletes(Step(refreshed, Tick(wait)), pack);
  }

  /**
   * An undisturbed sign-in succeeds, however long the touch and the packing take: it releases the
   * unlocked password if and only if that is well-formed and taken within 30000 ms.
   */
  lemma SignInCompletes(now: nat, touch: nat, wait: nat, pack: nat, unlocked: Bytes)
    ensures var end := Execute(InitialSystem(true, now), SignIn(touch, wait, pack, unlocked));
            if WellFormedPassword(unlocked) && wait <= READY_LIFETIME
            then EndsWith(end, Released(1, unlocked)) else end.None?
  {
    var rest := [Refresh, Tick(wait), Take, Tick(pack), Complete(1, true)];
    var s := AttemptRuns(now, touch, unlocked, rest);
    ProofCompletes(s, wait, pack);
  }
}
