/**
 * A provider and all the credentials it ever created, interleaved: a teardown deselects
 * the listed credentials one by one while their workers and serialization calls go on.
 */
module ProviderRuns {
  import opened Basics
  import opened CredentialRuns

  /** How far a teardown (SetUsageScenario, UnAdvise or SetUserArray) has come. */
  datatype Phase = Idle | Deselecting(next: nat) | Dropping(next: nat)

  /**
   * `credentials` are all credentials ever created; `listed` are positions in it, each held by one
   * provider reference.
   */
  datatype World = World(credentials: seq<System>, listed: seq<nat>, phase: Phase)

  datatype WorldLabel =
    | At(id: nat, step: Label)            // LogonUI, a worker or the clock, at one credential
    | Create(events: bool, now: nat)       // enumerate lists a new credential
    | BeginTeardown
    | DeselectNext
    | Clear                                // all deselected: credentials_.clear() starts
    | DropNext
    | EndTeardown

  const START := World([], [], Idle)

  predicate WorldEnabled(w: World, l: WorldLabel) {
    match l
    case At(id, step) =>
      Steps(w, id, step) &&
      (step.DropReference? && StillHeld(w, id) ==> w.credentials[id].external > 1)
    case Create(_, _) => w.phase.Idle?
    case BeginTeardown => w.phase.Idle?
    case DeselectNext => w.phase.Deselecting? && w.phase.next < |w.listed| && Steps(w, w.listed[w.phase.next], Deselect)
    case Clear => w.phase.Deselecting? && w.phase.next >= |w.listed|
    case DropNext => w.phase.Dropping? && w.phase.next < |w.listed| && Steps(w, w.listed[w.phase.next], DropReference)
    case EndTeardown => w.phase.Dropping? && w.phase.next >= |w.listed|
  }

  /** The first listed position whose reference the provider has not given up. */
  function FirstHeld(w: World): nat {
    if w.phase.Dropping? then w.phase.next else 0
  }

  /** One reference to this credential is the provider's own. */
  predicate StillHeld(w: World, id: nat) {
    exists i | FirstHeld(w) <= i < |w.listed| :: w.listed[i] == id
  }

  predicate Steps(w: World, id: nat, l: Label) {
    id < |w.credentials| && Enabled(w.credentials[id], l)
  }

  function StepAt(w: World, id: nat, l: Label): World
    requires Steps(w, id, l)
  {
    w.(credentials := w.credentials[id := Step(w.credentials[id], l)])
  }

  function WorldStep(w: World, l: WorldLabel): World
    requires WorldEnabled(w, l)
  {
    match l
    case At(id, step) => StepAt(w, id, step)
    case Create(events, now) =>
      w.(credentials := w.credentials + [InitialSystem(events, now)], listed := w.listed + [|w.credentials|])
    case BeginTeardown => w.(phase := Deselecting(0))
    case DeselectNext => StepAt(w, w.listed[w.phase.next], Deselect).(phase := Deselecting(w.phase.next + 1))
    case Clear => w.(phase := Dropping(0))
    case DropNext => StepAt(w, w.listed[w.phase.next], DropReference).(phase := Dropping(w.phase.next + 1))
    case EndTeardown => w.(listed := [], phase := Idle)
  }

  function WorldRun(start: World, labels: seq<WorldLabel>): Option<World> {
    if labels == [] then Some(start) else
    var before := WorldRun(start, labels[..|labels| - 1]);
    var l := labels[|labels| - 1];
    if before.Some? && WorldEnabled(before.value, l) then Some(WorldStep(before.value, l)) else None
  }

  ghost predicate Sound(w: World) {
    && (forall id | 0 <= id < |w.credentials| :: Reachable(w.credentials[id]))
    && (forall i | 0 <= i < |w.listed| :: w.listed[i] < |w.credentials|)
  }

  /** No credential disappears and no history is rewritten. */
  ghost predicate Extends(w: World, w': World) {
    |w.credentials| <= |w'.credentials| &&
    forall id | 0 <= id < |w.credentials| :: w.credentials[id].log <= w'.credentials[id].log
  }

  lemma StepAtIsSound(w: World, id: nat, l: Label)
    requires Sound(w) && Steps(w, id, l)
    ensures Sound(StepAt(w, id, l)) && Extends(w, StepAt(w, id, l))
  {
    ReachableStep(w.credentials[id], l);
    StepAppends(w.credentials[id], l);
  }

  lemma CreateIsSound(w: World, events: bool, now: nat)
    requires Sound(w) && w.phase.Idle?
    ensures var w' := WorldStep(w, Create(events, now)); Sound(w') && Extends(w, w')
  {
    assert Execute(InitialSystem(events, now), []) == Some(InitialSystem(events, now));
  }

  lemma WorldStepIsSound(w: World, l: WorldLabel)
    requires Sound(w) && WorldEnabled(w, l)
    ensures Sound(WorldStep(w, l)) && Extends(w, WorldStep(w, l))
  {
    match l
    case At(id, step) => StepAtIsSound(w, id, step);
    case Create(events, now) => CreateIsSound(w, events, now);
    case DeselectNext => StepAtIsSound(w, w.listed[w.phase.next], Deselect);
    case DropNext => StepAtIsSound(w, w.listed[w.phase.next], DropReference);
    case _ =>
  }

  lemma {:induction false} WorldRunIsSound(start: World, labels: seq<WorldLabel>, w: World)
    requires Sound(start) && WorldRun(start, labels) == Some(w)
    ensures Sound(w) && Extends(start, w)
  {
    if labels == [] {
    } else {
      var before := WorldRun(start, labels[..|labels| - 1]).value;
      WorldRunIsSound(start, labels[..|labels| - 1], before);
      WorldStepIsSound(before, labels[|labels| - 1]);
    }
  }

  /** The provider still holds every credential it lists, until it drops it itself. */
  ghost predicate Held(w: World) {
    && (forall i, j | 0 <= i < j < |w.listed| :: w.listed[i] != w.listed[j])
    && (forall i | 0 <= i < |w.listed| :: w.listed[i] < |w.credentials|)
    && (forall i | FirstHeld(w) <= i < |w.listed| :: w.credentials[w.listed[i]].external > 0)
  }

  lemma ExternalChange(s: System, l: Label)
    requires Enabled(s, l)
    ensures Step(s, l).external >= if l.DropReference? then s.external - 1 else s.external
  {
  }

  lemma HeldAt(w: World, id: nat, l: Label)
    requires Held(w) && Steps(w, id, l) && (l.DropReference? && StillHeld(w, id) ==> w.credentials[id].external > 1)
    ensures Held(StepAt(w, id, l))
  {
    ExternalChange(w.credentials[id], l);
  }

  lemma HeldDrop(w: World)
    requires Held(w) && WorldEnabled(w, DropNext)
    ensures Held(WorldStep(w, DropNext))
  {
    ExternalChange(w.credentials[w.listed[w.phase.next]], DropReference);
  }

  lemma HeldCreate(w: World, events: bool, now: nat)
    requires Held(w) && WorldEnabled(w, Create(events, now))
    ensures Held(WorldStep(w, Create(events, now)))
  {
  }

  lemma HeldKept(w: World, l: WorldLabel)
    requires Held(w) && WorldEnabled(w, l)
    ensures Held(WorldStep(w, l))
  {
    match l
    case At(id, step) => HeldAt(w, id, step);
    case Create(events, now) => HeldCreate(w, events, now);
    case DeselectNext => HeldAt(w, w.listed[w.phase.next], Deselect);
    case DropNext => HeldDrop(w);
    case _ =>
  }

  lemma {:induction false} WorldRunHolds(labels: seq<WorldLabel>, w: World)
    requires WorldRun(START, labels) == Some(w)
    ensures Held(w)
  {
    if labels == [] {
    } else {
      var before := WorldRun(START, labels[..|labels| - 1]).value;
      WorldRunHolds(labels[..|labels| - 1], before);
      HeldKept(before, labels[|labels| - 1]);
    }
  }

  /**
   * A teardown in progress is never stuck on a destroyed credential: it can take its next step,
   * or it waits for a `begin` that holds the mutex and can go on, with or without a thread.
   */
  lemma TeardownProceeds(labels: seq<WorldLabel>, w: World)
    requires WorldRun(START, labels) == Some(w) && w.phase.Deselecting?
    ensures w.phase.next >= |w.listed| ==> WorldEnabled(w, Clear)
    ensures w.phase.next < |w.listed| ==>
              var id := w.listed[w.phase.next];
              && id < |w.credentials|
              && if w.credentials[id].launching then
                   forall runs :: WorldEnabled(w, At(id, Launch(runs))) &&
                                  WorldEnabled(WorldStep(w, At(id, Launch(runs))), DeselectNext)
                 else WorldEnabled(w, DeselectNext)
  {
    WorldRunHolds(labels, w);
  }

  /** Credential `id` was deselected after `w` and by `w'`. */
  ghost predicate Cut(w: World, w': World, id: nat) {
    id < |w.credentials| && id < |w'.credentials| &&
    exists p :: |w.credentials[id].log| <= p < |w'.credentials[id].log| && w'.credentials[id].log[p].event.Deselected?
  }

  lemma CutStays(w: World, w': World, w'': World, id: nat)
    requires Cut(w, w', id) && Extends(w', w'')
    ensures Cut(w, w'', id)
  {
    var p :| |w.credentials[id].log| <= p < |w'.credentials[id].log| && w'.credentials[id].log[p].event.Deselected?;
    assert w''.credentials[id].log[p].event.Deselected?;
  }

  lemma CutsStay(w: World, w': World, w'': World, ids: seq<nat>)
    requires (forall i | 0 <= i < |ids| :: Cut(w, w', ids[i])) && Extends(w', w'')
    ensures forall i | 0 <= i < |ids| :: Cut(w, w'', ids[i])
  {
    forall i | 0 <= i < |ids| ensures Cut(w, w'', ids[i]) { CutStays(w, w', w'', ids[i]); }
  }

  /** How many of the credentials listed when the teardown began it has already deselected. */
  function Progress(w: World, listed: seq<nat>): nat {
    if w.phase.Deselecting? then Min(w.phase.next, |listed|) as nat else |listed|
  }

  lemma DeselectNextCuts(start: World, w: World)
    requires Extends(start, w) && w.phase.Deselecting? && w.phase.next < |w.listed|
    requires w.listed[w.phase.next] < |start.credentials| && Steps(w, w.listed[w.phase.next], Deselect)
    ensures Cut(start, WorldStep(w, DeselectNext), w.listed[w.phase.next])
  {
    var id := w.listed[w.phase.next];
    StepAppends(w.credentials[id], Deselect);
    assert WorldStep(w, DeselectNext).credentials[id].log[|w.credentials[id].log|].event.Deselected?;
  }

  /** Only `DeselectNext` moves a teardown on, by the credential it deselects. */
  lemma PhaseChange(w: World, l: WorldLabel, listed: seq<nat>)
    requires WorldEnabled(w, l) && !l.BeginTeardown? && (w.phase.Idle? || w.listed == listed)
    ensures var w' := WorldStep(w, l);
            && (w'.phase.Idle? || w'.listed == listed)
            && (Progress(w', listed) > Progress(w, listed) ==>
                  l.DeselectNext? && Progress(w', listed) == w.phase.next + 1 == Progress(w, listed) + 1)
  {
  }

  /** Of the credentials listed in `start`, those the teardown got to by `w` were deselected since. */
  ghost predicate CutSoFar(start: World, w: World) {
    && (w.phase.Idle? || w.listed == start.listed)
    && forall i | 0 <= i < Progress(w, start.listed) :: Cut(start, w, start.listed[i])
  }

  lemma CutsGrow(start: World, w: World, l: WorldLabel)
    requires WorldEnabled(w, l) && !l.BeginTeardown? && CutSoFar(start, w)
    requires Extends(start, w) && Extends(w, WorldStep(w, l))
    requires forall i | 0 <= i < |start.listed| :: start.listed[i] < |start.credentials|
    ensures CutSoFar(start, WorldStep(w, l))
  {
    var n := Progress(w, start.listed);
    PhaseChange(w, l, start.listed);
    CutsStay(start, w, WorldStep(w, l), start.listed[..n]);
    if Progress(WorldStep(w, l), start.listed) > n { DeselectNextCuts(start, w); }
  }

  /** One teardown, begun in `start`, deselects every credential listed there, whatever runs in between. */
  lemma {:induction false} TeardownCuts(start: World, labels: seq<WorldLabel>, w: World)
    requires Sound(start) && start.phase == Deselecting(0)
    requires WorldRun(start, labels) == Some(w) && BeginTeardown !in labels
    ensures CutSoFar(start, w)
  {
    if labels == [] {
    } else {
      var shorter, l := labels[..|labels| - 1], labels[|labels| - 1];
      var before := WorldRun(start, shorter).value;
      TeardownCuts(start, shorter, before);
      WorldRunIsSound(start, shorter, before);
      WorldStepIsSound(before, l);
      CutsGrow(start, before, l);
    }
  }

  /**
   * Once a teardown begun in `w1` is over (`w2`), nothing released afterwards by a
   * credential it listed belongs to an attempt begun before `w1`, or while it ran but before
   * its own deselection at `p`, whenever the worker finishes and whatever call was in flight.
   */
  lemma TeardownIsFinal(w1: World, during: seq<WorldLabel>, w2: World, after: seq<WorldLabel>, w3: World, id: nat,
                        k: nat)
    returns (p: int, b: int)
    requires exists labels :: WorldRun(START, labels) == Some(w1)
    requires w1.phase == Deselecting(0) && WorldRun(w1, during) == Some(w2) && BeginTeardown !in during &&
               w2.phase.Idle?
    requires WorldRun(w2, after) == Some(w3) && id in w1.listed && id < |w2.credentials| && id < |w3.credentials|
    requires |w2.credentials[id].log| <= k < |w3.credentials[id].log| && w3.credentials[id].log[k].event.Released?
    ensures id < |w1.credentials|
    ensures |w1.credentials[id].log| <= p < b < k && p < |w2.credentials[id].log|
    ensures w3.credentials[id].log[p].event.Deselected?
    ensures w3.credentials[id].log[b].event == Began(w3.credentials[id].log[k].generation)
    ensures forall a | 0 <= a <= p ::
              w3.credentials[id].log[a].event != Began(w3.credentials[id].log[k].generation)
  {
    var labels :| WorldRun(START, labels) == Some(w1);
    WorldRunIsSound(START, labels, w1);
    TeardownCuts(w1, during, w2);
    WorldRunIsSound(w1, during, w2);
    WorldRunIsSound(w2, after, w3);
    var i :| 0 <= i < |w1.listed| && w1.listed[i] == id;
    assert Cut(w1, w2, w1.listed[i]);
    p :| |w1.credentials[id].log| <= p < |w2.credentials[id].log| && w2.credentials[id].log[p].event.Deselected?;
    assert w3.credentials[id].log[p].event.Deselected?;
    b := DeselectionIsFinal(w3.credentials[id], p, k);
  }
}
